/**
 * The manifest generated for this repository's own content directory, as a
 * fixture: its ten paths and its twenty-four keys, and what the generator,
 * slug resolution and the tree builders make of them.
 */
module Fixture {
  import opened Text
  import opened ManifestGen
  import opened Wrappers
  import opened Mdx

  /** The `paths` constant: the discovered files, in discovery order. */
  function FixturePaths(): seq<string> {
    [ "documentation/design-values.md",
      "documentation/emotion-with-next-app.md",
      "documentation/index.md",
      "documentation/typography.md",
      "prompt-library/index.md",
      "roadmap/core-sheet-diagrams.md",
      "roadmap/core-sheet-model.md",
      "roadmap/index.md",
      "documentation/test/index.md",
      "documentation/test/test2.md" ]
  }

  /** The `modules` constant: each key with the index of the module `M{i}` it names. */
  function FixtureModules(): map<string, nat> {
    map[
      "documentation/design-values.md" := 0,
      "documentation/design-values" := 0,
      "documentation/emotion-with-next-app.md" := 1,
      "documentation/emotion-with-next-app" := 1,
      "documentation/index.md" := 2,
      "documentation/index" := 2,
      "documentation" := 2,
      "documentation/typography.md" := 3,
      "documentation/typography" := 3,
      "prompt-library/index.md" := 4,
      "prompt-library/index" := 4,
      "prompt-library" := 4,
      "roadmap/core-sheet-diagrams.md" := 5,
      "roadmap/core-sheet-diagrams" := 5,
      "roadmap/core-sheet-model.md" := 6,
      "roadmap/core-sheet-model" := 6,
      "roadmap/index.md" := 7,
      "roadmap/index" := 7,
      "roadmap" := 7,
      "documentation/test/index.md" := 8,
      "documentation/test/index" := 8,
      "documentation/test" := 8,
      "documentation/test/test2.md" := 9,
      "documentation/test/test2" := 9
    ]
  }

  /** The key sets of a plain document and of an index document. */
  lemma PlainDocumentKeys(p: string, rel: string)
    requires !EndsWithSlashIndex(p) && rel == p + ".md"
    ensures FileKeySet(rel) == [rel, p]
  {
    ToSlugPlainDocument(p);
    assert MdExtLen(rel) == 3;
    assert rel[..|p|] == p;
    assert !EndsWith(p, "/index");
  }

  lemma IndexDocumentKeySet(d: string, rel: string, explicit: string)
    requires rel == d + "/index.md" && explicit == d + "/index"
    ensures FileKeySet(rel) == [rel, explicit, d]
  {
    ToSlugIndexDocument(d);
    assert MdExtLen(rel) == 3;
    assert rel[..|d| + 6] == d + "/index";
    assert (d + "/index")[|d|..] == "/index";
  }

  /** The key set the generator builds for each fixture path, in order. */
  function FixtureKeySets(): seq<seq<string>> {
    [ ["documentation/design-values.md", "documentation/design-values"],
      ["documentation/emotion-with-next-app.md", "documentation/emotion-with-next-app"],
      ["documentation/index.md", "documentation/index", "documentation"],
      ["documentation/typography.md", "documentation/typography"],
      ["prompt-library/index.md", "prompt-library/index", "prompt-library"],
      ["roadmap/core-sheet-diagrams.md", "roadmap/core-sheet-diagrams"],
      ["roadmap/core-sheet-model.md", "roadmap/core-sheet-model"],
      ["roadmap/index.md", "roadmap/index", "roadmap"],
      ["documentation/test/index.md", "documentation/test/index", "documentation/test"],
      ["documentation/test/test2.md", "documentation/test/test2"] ]
  }

  /**
   * When the key sets partition the keys of `table` (every key of set `i` is
   * mapped to `i`, every key of `table` lies in the set it is mapped to, and
   * the empty key is absent), the generated table is exactly `table`.
   */
  lemma TableOfPartition(ks: seq<seq<string>>, table: map<string, nat>)
    requires forall i, x :: 0 <= i < |ks| && x in ks[i] ==> x in table && table[x] == i
    requires forall x :: x in table ==> table[x] < |ks| && x in ks[table[x]]
    requires "" !in table
    ensures Table(Records(ks)) == table
  {
    var t := Table(Records(ks));
    forall k
      ensures k in t <==> k in table
      ensures k in t ==> t[k] == table[k]
    {
      TableKeysOfRecords(ks, k);
      if k in t {
        TableValueOfRecords(ks, k);
      }
    }
  }

  lemma FixtureTable()
    ensures Table(Records(FixtureKeySets())) == FixtureModules()
  {
    FixturePartition();
    TableOfPartition(FixtureKeySets(), FixtureModules());
  }

  lemma FixturePartition()
    ensures var ks := FixtureKeySets(); var f := FixtureModules();
      && (forall i, x :: 0 <= i < |ks| && x in ks[i] ==> x in f && f[x] == i)
      && (forall x :: x in f ==> f[x] < |ks| && x in ks[f[x]])
      && "" !in f
  {
    FixtureKeysMapped();
    FixtureModulesCovered();
  }

  lemma FixtureKeysMapped()
    ensures var ks := FixtureKeySets(); var f := FixtureModules();
      forall i, x :: 0 <= i < |ks| && x in ks[i] ==> x in f && f[x] == i
  {
  }

  lemma FixtureModulesCovered()
    ensures var ks := FixtureKeySets(); var f := FixtureModules();
      forall x :: x in f ==> f[x] < |ks| && x in ks[f[x]]
  {
  }

  /** The fixture paths hold no backslash, so normalisation leaves them alone. */
  lemma FixtureNormalized()
    ensures Normalize(FixturePaths()) == FixturePaths()
  {
    var paths := FixturePaths();
    forall i | 0 <= i < |paths|
      ensures '\\' !in paths[i]
    {
      FixtureNoBackslash(paths, i);
    }
    NormalizeNoop(paths);
  }

  lemma FixtureNoBackslash(paths: seq<string>, i: nat)
    requires paths == FixturePaths() && i < |paths|
    ensures '\\' !in paths[i]
  {
    if i == 0 { NoBackslashAt0(paths); }
    else if i == 1 { NoBackslashAt1(paths); }
    else if i == 2 { NoBackslashAt2(paths); }
    else if i == 3 { NoBackslashAt3(paths); }
    else if i == 4 { NoBackslashAt4(paths); }
    else if i == 5 { NoBackslashAt5(paths); }
    else if i == 6 { NoBackslashAt6(paths); }
    else if i == 7 { NoBackslashAt7(paths); }
    else if i == 8 { NoBackslashAt8(paths); }
    else { NoBackslashAt9(paths); }
  }

  lemma NoBackslashAt0(paths: seq<string>)
    requires paths == FixturePaths()
    ensures '\\' !in paths[0]
  {
  }

  lemma NoBackslashAt1(paths: seq<string>)
    requires paths == FixturePaths()
    ensures '\\' !in paths[1]
  {
  }

  lemma NoBackslashAt2(paths: seq<string>)
    requires paths == FixturePaths()
    ensures '\\' !in paths[2]
  {
  }

  lemma NoBackslashAt3(paths: seq<string>)
    requires paths == FixturePaths()
    ensures '\\' !in paths[3]
  {
  }

  lemma NoBackslashAt4(paths: seq<string>)
    requires paths == FixturePaths()
    ensures '\\' !in paths[4]
  {
  }

  lemma NoBackslashAt5(paths: seq<string>)
    requires paths == FixturePaths()
    ensures '\\' !in paths[5]
  {
  }

  lemma NoBackslashAt6(paths: seq<string>)
    requires paths == FixturePaths()
    ensures '\\' !in paths[6]
  {
  }

  lemma NoBackslashAt7(paths: seq<string>)
    requires paths == FixturePaths()
    ensures '\\' !in paths[7]
  {
  }

  lemma NoBackslashAt8(paths: seq<string>)
    requires paths == FixturePaths()
    ensures '\\' !in paths[8]
  {
  }

  lemma NoBackslashAt9(paths: seq<string>)
    requires paths == FixturePaths()
    ensures '\\' !in paths[9]
  {
  }

  /** Paths without a backslash come out of normalisation unchanged. */
  lemma NormalizeNoop(paths: seq<string>)
    requires forall i :: 0 <= i < |paths| ==> '\\' !in paths[i]
    ensures Normalize(paths) == paths
  {
    forall i | 0 <= i < |paths|
      ensures Normalize(paths)[i] == paths[i]
    {
      ReplaceBackslashesNoop(paths[i]);
    }
  }

  /** Every fixture path gets the key set listed for it. */
  lemma FixtureKeySetsGenerated()
    ensures KeySets(FixturePaths()) == FixtureKeySets()
  {
    var paths := FixturePaths();
    forall i | 0 <= i < |paths|
      ensures FileKeySet(paths[i]) == FixtureKeySets()[i]
    {
      if i == 0 { FixtureKeySetAt0(); }
      else if i == 1 { FixtureKeySetAt1(); }
      else if i == 2 { FixtureKeySetAt2(); }
      else if i == 3 { FixtureKeySetAt3(); }
      else if i == 4 { FixtureKeySetAt4(); }
      else if i == 5 { FixtureKeySetAt5(); }
      else if i == 6 { FixtureKeySetAt6(); }
      else if i == 7 { FixtureKeySetAt7(); }
      else if i == 8 { FixtureKeySetAt8(); }
      else { FixtureKeySetAt9(); }
    }
    KeySetsOf(paths, FixtureKeySets());
  }

  /** `KeySets` is determined by the key set of each path. */
  lemma KeySetsOf(paths: seq<string>, ks: seq<seq<string>>)
    requires |paths| == |ks|
    requires forall i :: 0 <= i < |paths| ==> FileKeySet(paths[i]) == ks[i]
    ensures KeySets(paths) == ks
  {
  }

  lemma FixtureKeySetAt0()
    ensures FileKeySet(FixturePaths()[0]) == FixtureKeySets()[0]
  {
    PlainDocumentKeys("documentation/design-values", FixturePaths()[0]);
  }

  lemma FixtureKeySetAt1()
    ensures FileKeySet(FixturePaths()[1]) == FixtureKeySets()[1]
  {
    PlainDocumentKeys("documentation/emotion-with-next-app", FixturePaths()[1]);
  }

  lemma FixtureKeySetAt2()
    ensures FileKeySet(FixturePaths()[2]) == FixtureKeySets()[2]
  {
    IndexDocumentKeySet("documentation", FixturePaths()[2], FixtureKeySets()[2][1]);
  }

  lemma FixtureKeySetAt3()
    ensures FileKeySet(FixturePaths()[3]) == FixtureKeySets()[3]
  {
    PlainDocumentKeys("documentation/typography", FixturePaths()[3]);
  }

  lemma FixtureKeySetAt4()
    ensures FileKeySet(FixturePaths()[4]) == FixtureKeySets()[4]
  {
    var d := "prompt-library";
    IndexKeyLiterals4(FixturePaths(), FixtureKeySets(), d);
    IndexDocumentKeySet(d, FixturePaths()[4], d + "/index");
  }

  lemma IndexKeyLiterals4(ps: seq<string>, ks: seq<seq<string>>, d: string)
    requires ps == FixturePaths() && ks == FixtureKeySets() && d == "prompt-library"
    ensures ps[4] == d + "/index.md" && ks[4] == [ps[4], d + "/index", d]
  {
    assert ps[4] == "prompt-library/index.md" == d + "/index.md";
    assert ks[4][1] == "prompt-library/index" == d + "/index";
  }

  lemma FixtureKeySetAt5()
    ensures FileKeySet(FixturePaths()[5]) == FixtureKeySets()[5]
  {
    PlainDocumentKeys("roadmap/core-sheet-diagrams", FixturePaths()[5]);
  }

  lemma FixtureKeySetAt6()
    ensures FileKeySet(FixturePaths()[6]) == FixtureKeySets()[6]
  {
    PlainDocumentKeys("roadmap/core-sheet-model", FixturePaths()[6]);
  }

  lemma FixtureKeySetAt7()
    ensures FileKeySet(FixturePaths()[7]) == FixtureKeySets()[7]
  {
    IndexDocumentKeySet("roadmap", FixturePaths()[7], FixtureKeySets()[7][1]);
  }

  lemma FixtureKeySetAt8()
    ensures FileKeySet(FixturePaths()[8]) == FixtureKeySets()[8]
  {
    IndexDocumentKeySet("documentation/test", FixturePaths()[8], FixtureKeySets()[8][1]);
  }

  lemma FixtureKeySetAt9()
    ensures FileKeySet(FixturePaths()[9]) == FixtureKeySets()[9]
  {
    PlainDocumentKeys("documentation/test/test2", FixturePaths()[9]);
  }

  /**
   * Running the generator over the fixture paths reproduces the fixture:
   * the same paths in the same order, and exactly the twenty-four keys of
   * `modules`, each naming the same module.
   */
  lemma FixtureIsGenerated()
    ensures Generate(true, FixturePaths()).paths == FixturePaths()
    ensures Generate(true, FixturePaths()).modules == FixtureModules()
  {
    FixtureNormalized();
    FixtureKeySetsGenerated();
    FixtureTable();
  }

  /** The extension-stripped fixture paths under `documentation/`, in manifest order. */
  function DocStems(): seq<string> {
    [ "documentation/design-values",
      "documentation/emotion-with-next-app",
      "documentation/index",
      "documentation/typography",
      "documentation/test/index",
      "documentation/test/test2" ]
  }

  lemma StemUnder(prefix: string, rest: string, stem: string, p: string)
    requires stem == prefix + rest && p == stem + ".md"
    ensures StripMdExt(p) == stem
    ensures StartsWith(stem, prefix) && stem[|prefix|..] == rest
  {
    assert MdExtLen(p) == 3;
    assert p[..|stem|] == stem;
    assert stem[..|prefix|] == prefix;
  }

  lemma NotUnder(p: string, prefix: string)
    requires |p| > 4 && |prefix| > 0 && p[0] != prefix[0]
    ensures !StartsWith(StripMdExt(p), prefix)
  {
    var r := StripMdExt(p);
    assert |r| > 0 && r[0] == p[0];
    assert |prefix| <= |r| ==> r[..|prefix|][0] == r[0];
  }

  /** Of the fixture, `listDirectoryTree("documentation")` inserts the six files under `documentation/`. */
  lemma FixtureDocFiles()
    ensures TreeFiles(FixturePaths(), "documentation/") == DocStems()
  {
    var ps := FixturePaths();
    var pre := "documentation/";
    assert ps == ps[..4] + ps[4..8] + ps[8..];
    TreeFilesAppend(ps[..4] + ps[4..8], ps[8..], pre);
    TreeFilesAppend(ps[..4], ps[4..8], pre);
    DocFilesFirst();
    DocFilesMiddle();
    DocFilesLast();
    assert DocStems() == DocStems()[..4] + DocStems()[4..];
  }

  lemma DocFilesFirst()
    ensures TreeFiles(FixturePaths()[..4], "documentation/") == DocStems()[..4]
  {
    var ps := FixturePaths()[..4];
    var st := DocStems()[..4];
    var pre := "documentation/";
    forall i | 0 <= i < |ps|
      ensures StripMdExt(ps[i]) == st[i] && StartsWith(st[i], pre)
    {
      DocStemAt(FixturePaths(), DocStems(), pre, i, i);
    }
    TreeFilesAllUnder(ps, st, pre);
  }

  /** The `i`-th fixture path strips to the `j`-th stem under `documentation/`. */
  lemma DocStemAt(ps: seq<string>, st: seq<string>, pre: string, i: nat, j: nat)
    requires ps == FixturePaths() && st == DocStems() && pre == "documentation/"
    requires (i < 4 && j == i) || (8 <= i < 10 && j == i - 4)
    ensures StripMdExt(ps[i]) == st[j] && StartsWith(st[j], pre)
  {
    DocStemsShape(st, pre);
    if i == 0 { DocPathAt0(ps, st); StemUnder(pre, "design-values", st[0], ps[0]); }
    else if i == 1 { DocPathAt1(ps, st); StemUnder(pre, "emotion-with-next-app", st[1], ps[1]); }
    else if i == 2 { DocPathAt2(ps, st); StemUnder(pre, "index", st[2], ps[2]); }
    else if i == 3 { DocPathAt3(ps, st); StemUnder(pre, "typography", st[3], ps[3]); }
    else if i == 8 { DocPathAt8(ps, st); StemUnder(pre, "test" + "/" + "index", st[4], ps[8]); }
    else { DocPathAt9(ps, st); StemUnder(pre, "test" + "/" + "test2", st[5], ps[9]); }
  }

  lemma DocFilesMiddle()
    ensures TreeFiles(FixturePaths()[4..8], "documentation/") == []
  {
    var ps := FixturePaths()[4..8];
    forall i | 0 <= i < |ps|
      ensures !StartsWith(StripMdExt(ps[i]), "documentation/")
    {
      NotUnder(ps[i], "documentation/");
    }
    TreeFilesNoneUnder(ps, "documentation/");
  }

  lemma DocFilesLast()
    ensures TreeFiles(FixturePaths()[8..], "documentation/") == DocStems()[4..]
  {
    var ps := FixturePaths()[8..];
    var st := DocStems()[4..];
    var pre := "documentation/";
    forall i | 0 <= i < |ps|
      ensures StripMdExt(ps[i]) == st[i] && StartsWith(st[i], pre)
    {
      DocStemAt(FixturePaths(), DocStems(), pre, i + 8, i + 4);
    }
    TreeFilesAllUnder(ps, st, pre);
  }

  /**
   * On the fixture, `listDirectoryTree("documentation")` has the three
   * plain documents as leaves and `test` as a directory holding the leaf
   * `test2`; the two `index` documents add no leaf.
   */
  lemma FixtureDocumentationTree()
    ensures DirectoryTree(FixturePaths(), "documentation") ==
      map[ "design-values" := Leaf,
           "emotion-with-next-app" := Leaf,
           "typography" := Leaf,
           "test" := Branch(map["test2" := Leaf]) ]
  {
    assert NormalizeSlug("documentation") == "documentation";
    assert DirPrefix("documentation") == "documentation/";
    FixtureDocFiles();
    DocStemsShape(DocStems(), "documentation/");
    DocSegmentsPlain();
    DirectoryWithSubdirectory("documentation/", DocStems(), "design-values",
      "emotion-with-next-app", "typography", "test", "test2");
  }

  lemma DocStemsShape(st: seq<string>, pre: string)
    requires st == DocStems() && pre == "documentation/"
    ensures |st| == 6
    ensures st[0] == pre + "design-values" && st[1] == pre + "emotion-with-next-app"
    ensures st[2] == pre + "index" && st[3] == pre + "typography"
    ensures st[4] == pre + "test" + "/" + "index" && st[5] == pre + "test" + "/" + "test2"
  {
    DocStemsFront(st, pre);
    DocStemsBack(st, pre);
  }

  lemma DocStemsFront(st: seq<string>, pre: string)
    requires st == DocStems() && pre == "documentation/"
    ensures |st| == 6
    ensures st[0] == pre + "design-values" && st[1] == pre + "emotion-with-next-app"
  {
  }

  lemma DocStemsBack(st: seq<string>, pre: string)
    requires st == DocStems() && pre == "documentation/"
    ensures |st| == 6
    ensures st[2] == pre + "index" && st[3] == pre + "typography"
    ensures st[4] == pre + "test" + "/" + "index" && st[5] == pre + "test" + "/" + "test2"
  {
  }

  lemma DocPathAt0(ps: seq<string>, st: seq<string>)
    requires ps == FixturePaths() && st == DocStems()
    ensures ps[0] == st[0] + ".md"
  {
  }

  lemma DocPathAt1(ps: seq<string>, st: seq<string>)
    requires ps == FixturePaths() && st == DocStems()
    ensures ps[1] == st[1] + ".md"
  {
  }

  lemma DocPathAt2(ps: seq<string>, st: seq<string>)
    requires ps == FixturePaths() && st == DocStems()
    ensures ps[2] == st[2] + ".md"
  {
  }

  lemma DocPathAt3(ps: seq<string>, st: seq<string>)
    requires ps == FixturePaths() && st == DocStems()
    ensures ps[3] == st[3] + ".md"
  {
  }

  lemma DocPathAt8(ps: seq<string>, st: seq<string>)
    requires ps == FixturePaths() && st == DocStems()
    ensures ps[8] == st[4] + ".md"
  {
  }

  lemma DocPathAt9(ps: seq<string>, st: seq<string>)
    requires ps == FixturePaths() && st == DocStems()
    ensures ps[9] == st[5] + ".md"
  {
  }

  lemma DocSegmentsPlain()
    ensures '/' !in "design-values" && '/' !in "emotion-with-next-app" && '/' !in "typography"
    ensures '/' !in "test" && '/' !in "test2"
    ensures "design-values" != "index" && "emotion-with-next-app" != "index"
    ensures "typography" != "index" && "test2" != "index"
    ensures "test" != "design-values" && "test" != "emotion-with-next-app" && "test" != "typography"
  {
  }

  lemma Below(pre: string, r: string)
    ensures StartsWith(pre + r, pre) && (pre + r)[|pre|..] == r
  {
    assert (pre + r)[..|pre|] == pre;
  }

  /**
   * The shape of the `documentation` directory: three plain documents, an
   * `index` document, and a sub-directory `d` with its own index document
   * and one plain document, inserted in that order.
   */
  lemma DirectoryWithSubdirectory(pre: string, files: seq<string>, a: string, b: string, c: string, d: string, e: string)
    requires |files| == 6
    requires files[0] == pre + a && files[1] == pre + b && files[2] == pre + "index"
    requires files[3] == pre + c && files[4] == pre + d + "/" + "index" && files[5] == pre + d + "/" + e
    requires '/' !in a && '/' !in b && '/' !in c && '/' !in d && '/' !in e
    requires a != "index" && b != "index" && c != "index" && e != "index"
    requires d != a && d != b && d != c
    ensures BuildTree(files, pre) == map[a := Leaf, b := Leaf, c := Leaf, d := Branch(map[e := Leaf])]
  {
    Below(pre, a);
    Below(pre, b);
    Below(pre, "index");
    Below(pre, c);
    Below(pre, d + "/" + "index");
    Below(pre, d + "/" + e);
    assert files[4] == pre + (d + "/" + "index");
    assert files[5] == pre + (d + "/" + e);
    assert forall g :: g in files ==> StartsWith(g, pre);
    var t4 := map[a := Leaf, b := Leaf, c := Leaf];
    PlainLeaves(pre, files, a, b, c);
    SubdirectoryIndex(pre, files, t4, d);
    SubdirectoryLeaf(pre, files, t4, d, e);
  }

  lemma PlainLeaves(pre: string, files: seq<string>, a: string, b: string, c: string)
    requires |files| == 6 && forall g :: g in files ==> StartsWith(g, pre)
    requires files[0] == pre + a && files[1] == pre + b
    requires files[2] == pre + "index" && files[3] == pre + c
    requires '/' !in a && '/' !in b && '/' !in c
    requires a != "index" && b != "index" && c != "index"
    ensures BuildTree(files[..4], pre) == map[a := Leaf, b := Leaf, c := Leaf]
  {
    Below(pre, a);
    Below(pre, b);
    Below(pre, "index");
    Below(pre, c);
    var t2 := map[a := Leaf, b := Leaf];
    assert BuildTree(files[..2], pre) == t2 by {
      BuildTreePrefix(files, 1, pre);
      BuildTreePrefix(files, 2, pre);
      SplitSegment(a);
      SplitSegment(b);
      assert files[..0] == [];
    }
    BuildTreePrefix(files, 3, pre);
    BuildTreePrefix(files, 4, pre);
    SplitSegment("index");
    SplitSegment(c);
  }

  lemma SubdirectoryIndex(pre: string, files: seq<string>, t4: map<string, DirTree>, d: string)
    requires |files| == 6 && forall g :: g in files ==> StartsWith(g, pre)
    requires BuildTree(files[..4], pre) == t4 && d !in t4
    requires files[4] == pre + (d + "/" + "index") && '/' !in d
    ensures BuildTree(files[..5], pre) == t4[d := Branch(map[])]
  {
    Below(pre, d + "/" + "index");
    BuildTreePrefix(files, 5, pre);
    SplitSegments(d, "index");
    InsertTwo(t4, d, "index");
    assert Insert(map[], ["index"]) == map[];
  }

  lemma SubdirectoryLeaf(pre: string, files: seq<string>, t4: map<string, DirTree>, d: string, e: string)
    requires |files| == 6 && forall g :: g in files ==> StartsWith(g, pre)
    requires BuildTree(files[..5], pre) == t4[d := Branch(map[])]
    requires files[5] == pre + (d + "/" + e) && '/' !in d && '/' !in e && e != "index"
    ensures BuildTree(files, pre) == t4[d := Branch(map[e := Leaf])]
  {
    LastFileTree(pre, files, d, e);
    InsertIntoEmptyDirectory(t4, d, e);
  }

  /** The sixth file `pre + d/e` inserts the labels `[d, e]`. */
  lemma LastFileTree(pre: string, files: seq<string>, d: string, e: string)
    requires |files| == 6 && forall g :: g in files ==> StartsWith(g, pre)
    requires files[5] == pre + (d + "/" + e) && '/' !in d && '/' !in e
    ensures BuildTree(files, pre) == Insert(BuildTree(files[..5], pre), [d, e])
  {
    Below(pre, d + "/" + e);
    BuildTreePrefix(files, 6, pre);
    assert files[..6] == files;
    SplitSegments(d, e);
  }

  /** Inserting `[d, e]` where `d` is an empty directory puts the leaf `e` in it. */
  lemma InsertIntoEmptyDirectory(t4: map<string, DirTree>, d: string, e: string)
    requires e != "index"
    ensures Insert(t4[d := Branch(map[])], [d, e]) == t4[d := Branch(map[e := Leaf])]
  {
    var t5 := t4[d := Branch(map[])];
    InsertTwo(t5, d, e);
    assert Insert(map[], [e]) == map[e := Leaf];
    assert t5[d := Branch(map[e := Leaf])] == t4[d := Branch(map[e := Leaf])];
  }

  /** The ten fixture paths are distinct: each is a key of its own module only. */
  lemma FixturePathsDistinct()
    ensures |FixturePaths()| == 10 && NoDup(FixturePaths())
  {
    var ps := FixturePaths();
    var ks := FixtureKeySets();
    FixtureKeysMapped();
    forall i | 0 <= i < |ps|
      ensures ps[i] in ks[i]
    {
      assert ks[i][0] == ps[i];
    }
  }

  /**
   * The index document `documentation/index.md` (module `M2`) answers to
   * `documentation`, `documentation/`, `documentation/index` and
   * `documentation/index.md`, and makes `documentation` a directory with an
   * index document.
   */
  lemma FixtureDocumentationAliases()
    ensures Resolve(FixtureModules(), "documentation") == Some(2)
    ensures Resolve(FixtureModules(), "documentation/") == Some(2)
    ensures Resolve(FixtureModules(), "documentation/index") == Some(2)
    ensures Resolve(FixtureModules(), "documentation/index.md") == Some(2)
    ensures HasIndexMdx(FixtureModules(), "documentation")
  {
    DocumentationExactKeys();
    DocumentationSlash();
    DocumentationHasIndex();
  }

  lemma DocumentationExactKeys()
    ensures Resolve(FixtureModules(), "documentation") == Some(2)
    ensures Resolve(FixtureModules(), "documentation/index") == Some(2)
    ensures Resolve(FixtureModules(), "documentation/index.md") == Some(2)
  {
    DocumentationKey(FixtureModules(), "documentation");
    DocumentationKey(FixtureModules(), "documentation/index");
    DocumentationKey(FixtureModules(), "documentation/index.md");
  }

  /** A key of module `M2` without a trailing slash resolves to it directly. */
  lemma DocumentationKey(m: map<string, nat>, k: string)
    requires m == FixtureModules()
    requires k == "documentation" || k == "documentation/index" || k == "documentation/index.md"
    ensures Resolve(m, k) == Some(2)
  {
    if k == "documentation" {
      assert k in m && m[k] == 2 && k[|k| - 1] == 'n';
    } else if k == "documentation/index" {
      assert k in m && m[k] == 2 && k[|k| - 1] == 'x';
    } else {
      assert k in m && m[k] == 2 && k[|k| - 1] == 'd';
    }
    ResolveExactKey(m, k);
  }

  lemma DocumentationSlash()
    ensures Resolve(FixtureModules(), "documentation/") == Some(2)
  {
    assert NormalizeSlug("documentation/") == "documentation";
    assert Candidates("documentation")[0] == "documentation";
  }

  lemma DocumentationHasIndex()
    ensures HasIndexMdx(FixtureModules(), "documentation")
  {
    assert NormalizeSlug("documentation") + "/index" == "documentation/index";
  }
}
