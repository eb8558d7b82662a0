/**
 * The navigation forest `buildNavTree` makes of the fixture manifest's
 * paths, followed insertion by insertion.
 */
module FixtureNav {
  import opened Wrappers
  import opened Text
  import opened ManifestGen
  import opened NavUtil
  import opened Fixture

  /** The label list the `k`-th fixture path normalises and splits into. */
  function FixtureNavParts(k: nat): (parts: seq<string>)
    requires k < 10
    ensures |parts| >= 1
  {
    if k == 0 then ["documentation", "design-values"]
    else if k == 1 then ["documentation", "emotion-with-next-app"]
    else if k == 2 then ["documentation"]
    else if k == 3 then ["documentation", "typography"]
    else if k == 4 then ["prompt-library"]
    else if k == 5 then ["roadmap", "core-sheet-diagrams"]
    else if k == 6 then ["roadmap", "core-sheet-model"]
    else if k == 7 then ["roadmap"]
    else if k == 8 then ["documentation", "test"]
    else ["documentation", "test", "test2"]
  }

  /** The forest after the first `k` fixture paths. */
  function NavAfter(k: nat): seq<NavNode>
    requires k <= 10
  {
    NavTree(FixturePaths()[..k])
  }

  /** One more path with a non-empty normal form inserts its labels into the forest so far. */
  lemma NavTreePrefix(paths: seq<string>, k: nat, parts: seq<string>)
    requires k < |paths|
    requires NormalizePath(paths[k]) != "" && Split(NormalizePath(paths[k])) == parts
    ensures |parts| >= 1
    ensures NavTree(paths[..k + 1]) == InsertNav(NavTree(paths[..k]), [], parts)
  {
    assert paths[..k + 1][..k] == paths[..k];
  }

  /** The `k`-th path normalises to `d/x`, which splits into the two labels. */
  lemma PairParts(k: nat, d: string, x: string)
    requires k < 10 && NormalizePath(FixturePaths()[k]) == d + "/" + x
    requires '/' !in d && '/' !in x && FixtureNavParts(k) == [d, x]
    ensures NormalizePath(FixturePaths()[k]) != ""
    ensures Split(NormalizePath(FixturePaths()[k])) == FixtureNavParts(k)
  {
    SplitSegments(d, x);
  }

  /** An index document `s/index.md` normalises to `s`. */
  lemma IndexParts(s: string, p: string)
    requires p == s + "/index.md"
    requires |s| > 0 && s[0] != '.'
    ensures NormalizePath(p) == s
  {
    assert p[..2][0] == s[0];
    NormalizePathAgreesWithSlug(p);
    ToSlugIndexDocument(s);
  }

  lemma NavParts0()
    ensures NormalizePath(FixturePaths()[0]) != ""
    ensures Split(NormalizePath(FixturePaths()[0])) == FixtureNavParts(0)
  {
    NavSlug0();
    NavLabels0();
    PairParts(0, "documentation", "design-values");
  }

  lemma NavLabels0()
    ensures FixtureNavParts(0) == ["documentation", "design-values"] && '/' !in "documentation" && '/' !in "design-values"
  {
  }

  lemma NavSlug0()
    ensures NormalizePath(FixturePaths()[0]) == "documentation" + "/" + "design-values"
  {
    NavLiterals0();
    assert ("documentation" + "/" + "design-values")[..2][0] != '.';
    NormalizePlainDocument("documentation" + "/" + "design-values");
  }

  lemma NavLiterals0()
    ensures FixturePaths()[0] == "documentation" + "/" + "design-values" + ".md"
    ensures "documentation"[0] != '.' && !EndsWithSlashIndex("documentation" + "/" + "design-values")
  {
  }

  lemma NavParts1()
    ensures NormalizePath(FixturePaths()[1]) != ""
    ensures Split(NormalizePath(FixturePaths()[1])) == FixtureNavParts(1)
  {
    NavSlug1();
    NavLabels1();
    PairParts(1, "documentation", "emotion-with-next-app");
  }

  lemma NavLabels1()
    ensures FixtureNavParts(1) == ["documentation", "emotion-with-next-app"] && '/' !in "documentation" && '/' !in "emotion-with-next-app"
  {
  }

  lemma NavSlug1()
    ensures NormalizePath(FixturePaths()[1]) == "documentation" + "/" + "emotion-with-next-app"
  {
    NavLiterals1();
    assert ("documentation" + "/" + "emotion-with-next-app")[..2][0] != '.';
    NormalizePlainDocument("documentation" + "/" + "emotion-with-next-app");
  }

  lemma NavLiterals1()
    ensures FixturePaths()[1] == "documentation" + "/" + "emotion-with-next-app" + ".md"
    ensures "documentation"[0] != '.' && !EndsWithSlashIndex("documentation" + "/" + "emotion-with-next-app")
  {
  }

  lemma NavParts2()
    ensures NormalizePath(FixturePaths()[2]) != ""
    ensures Split(NormalizePath(FixturePaths()[2])) == FixtureNavParts(2)
  {
    NavLiterals2();
    IndexParts("documentation", FixturePaths()[2]);
    SplitSegment("documentation");
  }

  lemma NavLiterals2()
    ensures FixturePaths()[2] == "documentation" + "/index.md" && "documentation"[0] != '.' && '/' !in "documentation"
  {
  }

  lemma NavParts3()
    ensures NormalizePath(FixturePaths()[3]) != ""
    ensures Split(NormalizePath(FixturePaths()[3])) == FixtureNavParts(3)
  {
    NavSlug3();
    NavLabels3();
    PairParts(3, "documentation", "typography");
  }

  lemma NavLabels3()
    ensures FixtureNavParts(3) == ["documentation", "typography"] && '/' !in "documentation" && '/' !in "typography"
  {
  }

  lemma NavSlug3()
    ensures NormalizePath(FixturePaths()[3]) == "documentation" + "/" + "typography"
  {
    NavLiterals3();
    assert ("documentation" + "/" + "typography")[..2][0] != '.';
    NormalizePlainDocument("documentation" + "/" + "typography");
  }

  lemma NavLiterals3()
    ensures FixturePaths()[3] == "documentation" + "/" + "typography" + ".md"
    ensures "documentation"[0] != '.' && !EndsWithSlashIndex("documentation" + "/" + "typography")
  {
  }

  lemma NavParts4()
    ensures NormalizePath(FixturePaths()[4]) != ""
    ensures Split(NormalizePath(FixturePaths()[4])) == FixtureNavParts(4)
  {
    NavLiterals4();
    IndexParts("prompt-library", FixturePaths()[4]);
    SplitSegment("prompt-library");
  }

  lemma NavLiterals4()
    ensures FixturePaths()[4] == "prompt-library" + "/index.md" && "prompt-library"[0] != '.' && '/' !in "prompt-library"
  {
  }

  lemma NavParts5()
    ensures NormalizePath(FixturePaths()[5]) != ""
    ensures Split(NormalizePath(FixturePaths()[5])) == FixtureNavParts(5)
  {
    NavSlug5();
    NavLabels5();
    PairParts(5, "roadmap", "core-sheet-diagrams");
  }

  lemma NavLabels5()
    ensures FixtureNavParts(5) == ["roadmap", "core-sheet-diagrams"] && '/' !in "roadmap" && '/' !in "core-sheet-diagrams"
  {
  }

  lemma NavSlug5()
    ensures NormalizePath(FixturePaths()[5]) == "roadmap" + "/" + "core-sheet-diagrams"
  {
    NavLiterals5();
    assert ("roadmap" + "/" + "core-sheet-diagrams")[..2][0] != '.';
    NormalizePlainDocument("roadmap" + "/" + "core-sheet-diagrams");
  }

  lemma NavLiterals5()
    ensures FixturePaths()[5] == "roadmap" + "/" + "core-sheet-diagrams" + ".md"
    ensures "roadmap"[0] != '.' && !EndsWithSlashIndex("roadmap" + "/" + "core-sheet-diagrams")
  {
  }

  lemma NavParts6()
    ensures NormalizePath(FixturePaths()[6]) != ""
    ensures Split(NormalizePath(FixturePaths()[6])) == FixtureNavParts(6)
  {
    NavSlug6();
    NavLabels6();
    PairParts(6, "roadmap", "core-sheet-model");
  }

  lemma NavLabels6()
    ensures FixtureNavParts(6) == ["roadmap", "core-sheet-model"] && '/' !in "roadmap" && '/' !in "core-sheet-model"
  {
  }

  lemma NavSlug6()
    ensures NormalizePath(FixturePaths()[6]) == "roadmap" + "/" + "core-sheet-model"
  {
    NavLiterals6();
    assert ("roadmap" + "/" + "core-sheet-model")[..2][0] != '.';
    NormalizePlainDocument("roadmap" + "/" + "core-sheet-model");
  }

  lemma NavLiterals6()
    ensures FixturePaths()[6] == "roadmap" + "/" + "core-sheet-model" + ".md"
    ensures "roadmap"[0] != '.' && !EndsWithSlashIndex("roadmap" + "/" + "core-sheet-model")
  {
  }

  lemma NavParts7()
    ensures NormalizePath(FixturePaths()[7]) != ""
    ensures Split(NormalizePath(FixturePaths()[7])) == FixtureNavParts(7)
  {
    NavLiterals7();
    IndexParts("roadmap", FixturePaths()[7]);
    SplitSegment("roadmap");
  }

  lemma NavLiterals7()
    ensures FixturePaths()[7] == "roadmap" + "/index.md" && "roadmap"[0] != '.' && '/' !in "roadmap"
  {
  }

  lemma NavParts8()
    ensures NormalizePath(FixturePaths()[8]) != ""
    ensures Split(NormalizePath(FixturePaths()[8])) == FixtureNavParts(8)
  {
    NavSlug8();
    SplitTest();
    NavPartsEight();
  }

  lemma NavSlug8()
    ensures NormalizePath(FixturePaths()[8]) == "documentation/test"
  {
    NavLiterals8();
    IndexParts("documentation/test", FixturePaths()[8]);
  }

  lemma NavLiterals8()
    ensures FixturePaths()[8] == "documentation/test" + "/index.md" && "documentation/test"[0] != '.'
  {
  }

  lemma SplitTest()
    ensures Split("documentation/test") == ["documentation", "test"]
  {
    SplitSegments("documentation", "test");
    assert "documentation" + "/" + "test" == "documentation/test";
  }

  lemma NavParts9()
    ensures NormalizePath(FixturePaths()[9]) != ""
    ensures Split(NormalizePath(FixturePaths()[9])) == FixtureNavParts(9)
  {
    NavSplit9();
    NavPartsNine();
  }

  lemma NavSlug9()
    ensures NormalizePath(FixturePaths()[9]) == "documentation/test/test2"
  {
    NavLiterals9();
    assert "documentation/test/test2"[..2][0] != '.';
    NormalizePlainDocument("documentation/test/test2");
  }

  lemma NavSplit9()
    ensures NormalizePath(FixturePaths()[9]) != ""
    ensures Split(NormalizePath(FixturePaths()[9])) == ["documentation", "test", "test2"]
  {
    NavSlug9();
    SplitTestTest2();
  }

  lemma NavPartsNine()
    ensures FixtureNavParts(9) == ["documentation", "test", "test2"]
  {
  }

  lemma NavLiterals9()
    ensures FixturePaths()[9] == "documentation/test/test2" + ".md"
    ensures "documentation/test/test2"[0] != '.' && !EndsWithSlashIndex("documentation/test/test2")
  {
  }

  lemma SplitTestTest2()
    ensures Split("documentation/test/test2") == ["documentation", "test", "test2"]
  {
    assert Join(["documentation", "test", "test2"]) == "documentation/test/test2";
    SplitJoin(["documentation", "test", "test2"]);
  }

  /** The `k`-th insertion of `buildNavTree` on the fixture. */
  lemma NavStep(k: nat)
    requires k < 10
    ensures |FixtureNavParts(k)| >= 1
    ensures NavAfter(k + 1) == InsertNav(NavAfter(k), [], FixtureNavParts(k))
  {
    if k == 0 { NavParts0(); }
    else if k == 1 { NavParts1(); }
    else if k == 2 { NavParts2(); }
    else if k == 3 { NavParts3(); }
    else if k == 4 { NavParts4(); }
    else if k == 5 { NavParts5(); }
    else if k == 6 { NavParts6(); }
    else if k == 7 { NavParts7(); }
    else if k == 8 { NavParts8(); }
    else { NavParts9(); }
    NavTreePrefix(FixturePaths(), k, FixtureNavParts(k));
  }

  /** The root labels after the `k`-th insertion follow from those before it. */
  lemma NamesStep(k: nat, before: seq<string>, after: seq<string>)
    requires k < 10 && Names(NavAfter(k)) == before
    requires after == (if FixtureNavParts(k)[0] in before then before else before + [FixtureNavParts(k)[0]])
    ensures Names(NavAfter(k + 1)) == after
  {
    NavStep(k);
    NavTreeOk(FixturePaths()[..k]);
    InsertNavOk(NavAfter(k), [], FixtureNavParts(k));
  }

  /** An insertion that starts with another label leaves the root labelled `name` alone. */
  lemma RootElsewhere(k: nat, name: string)
    requires k < 10 && FixtureNavParts(k)[0] != name
    ensures Child(NavAfter(k + 1), name) == Child(NavAfter(k), name)
  {
    NavStep(k);
    InsertNavElsewhere(NavAfter(k), [], FixtureNavParts(k), name);
  }

  lemma RootLabelsDistinct()
    ensures "prompt-library" != "documentation"
    ensures "roadmap" != "documentation" && "roadmap" != "prompt-library"
  {
    assert |"roadmap"| == 7 && |"documentation"| == 13 && |"prompt-library"| == 14;
  }

  /** The first label of each fixture insertion. */
  lemma FirstLabel(k: nat)
    requires k < 10
    ensures FixtureNavParts(k)[0] ==
      if k == 4 then "prompt-library" else if 5 <= k <= 7 then "roadmap" else "documentation"
  {
  }

  /** The root labels expected after the first `k` fixture insertions. */
  function RootsAfter(k: nat): seq<string>
    requires k <= 10
  {
    if k == 0 then []
    else if k <= 4 then ["documentation"]
    else if k == 5 then ["documentation", "prompt-library"]
    else ["documentation", "prompt-library", "roadmap"]
  }

  /** `RootsAfter` grows exactly by the first labels not seen before. */
  lemma RootsStep(k: nat)
    requires 0 < k <= 10
    ensures var first := FixtureNavParts(k - 1)[0];
      RootsAfter(k) == if first in RootsAfter(k - 1) then RootsAfter(k - 1) else RootsAfter(k - 1) + [first]
  {
    FirstLabel(k - 1);
    RootLabelsDistinct();
    if k == 1 {
    } else if k <= 4 {
      assert RootsAfter(k - 1) == ["documentation"];
    } else if k == 5 {
      assert "prompt-library" !in ["documentation"];
    } else if k == 6 {
      assert "roadmap" !in ["documentation", "prompt-library"];
    }
  }

  lemma {:induction false} RootsAt(k: nat)
    requires k <= 10
    ensures Names(NavAfter(k)) == RootsAfter(k)
    decreases k
  {
    if k == 0 {
      assert FixturePaths()[..k] == [];
    } else {
      RootsAt(k - 1);
      RootsStep(k);
      NamesStep(k - 1, RootsAfter(k - 1), RootsAfter(k));
    }
  }

  lemma NavAfterAll()
    ensures NavAfter(10) == NavTree(FixturePaths())
  {
    assert FixturePaths()[..10] == FixturePaths();
  }

  /**
   * On the fixture, the roots are `documentation`, `prompt-library` and
   * `roadmap`, in first-encounter order.
   */
  lemma FixtureNavRoots()
    ensures Names(NavTree(FixturePaths())) == ["documentation", "prompt-library", "roadmap"]
  {
    RootsAt(10);
    NavAfterAll();
  }

  lemma NavPartsFour()
    ensures FixtureNavParts(4) == ["prompt-library"]
  {
  }

  lemma PromptLibraryMissing(k: nat)
    requires k == 4
    ensures "prompt-library" !in Names(NavAfter(k))
  {
    RootsAt(k);
    RootLabelsDistinct();
  }

  lemma PromptLibraryStep(k: nat)
    requires k == 4
    ensures NavAfter(k + 1) == InsertNav(NavAfter(k), [], ["prompt-library"])
  {
    NavStep(k);
    NavPartsFour();
  }

  /** The fifth fixture path adds `prompt-library` as a new root without children. */
  lemma PromptLibraryInserted(k: nat)
    requires k == 4
    ensures Child(NavAfter(k + 1), "prompt-library") ==
      Some(NavNode("prompt-library", "/docs/" + "prompt-library", Absent))
  {
    PromptLibraryMissing(k);
    PromptLibraryStep(k);
    NewRoot(NavAfter(k), "prompt-library");
  }

  lemma OtherThanPromptLibrary(k: nat)
    requires 4 < k < 10
    ensures FixtureNavParts(k)[0] != "prompt-library"
  {
    FirstLabel(k);
    RootLabelsDistinct();
  }

  lemma {:induction false} PromptLibraryAt(k: nat)
    requires 5 <= k <= 10
    ensures Child(NavAfter(k), "prompt-library") ==
      Some(NavNode("prompt-library", "/docs/" + "prompt-library", Absent))
    decreases k
  {
    if k == 5 {
      PromptLibraryInserted(k - 1);
    } else {
      PromptLibraryAt(k - 1);
      OtherThanPromptLibrary(k - 1);
      RootElsewhere(k - 1, "prompt-library");
    }
  }

  /** On the fixture, `prompt-library` is a root without children: its only document is its index. */
  lemma FixturePromptLibraryLeaf()
    ensures Child(NavTree(FixturePaths()), "prompt-library") ==
      Some(NavNode("prompt-library", "/docs/" + "prompt-library", Absent))
  {
    PromptLibraryAt(10);
    NavAfterAll();
  }

  /** The children of the root `documentation` after the first `k` fixture insertions. */
  function DocKids(k: nat): seq<NavNode>
    requires k <= 10
  {
    KidsOf(Child(NavAfter(k), "documentation"))
  }

  /** The insertions that start with `documentation` before `documentation/test/index.md`. */
  lemma DocumentationParts(k: nat)
    requires k < 10
    ensures k == 2 ==> FixtureNavParts(k) == ["documentation"]
    ensures k == 0 || k == 1 || k == 3 ==>
      |FixtureNavParts(k)| == 2 && FixtureNavParts(k)[0] == "documentation" && FixtureNavParts(k)[1] != "test"
  {
    assert |"test"| == 4 && |"design-values"| == 13 && |"emotion-with-next-app"| == 21 && |"typography"| == 10;
  }

  lemma NavPartsEight()
    ensures FixtureNavParts(8) == ["documentation", "test"]
  {
  }

  /** No insertion before the ninth continues from `documentation` into `test`. */
  lemma NotIntoTest(k: nat)
    requires k < 8
    ensures |FixtureNavParts(k)| > 1 && FixtureNavParts(k)[0] == "documentation" ==> FixtureNavParts(k)[1] != "test"
  {
    FirstLabel(k);
    RootLabelsDistinct();
    DocumentationParts(k);
  }

  lemma TestAbsentStep(k: nat)
    requires k < 8 && "test" !in Names(DocKids(k))
    ensures "test" !in Names(DocKids(k + 1))
  {
    NavStep(k);
    NotIntoTest(k);
    InsertKeepsMissing(NavAfter(k), FixtureNavParts(k), "documentation", "test");
  }

  lemma {:induction false} TestAbsent(k: nat)
    requires k <= 8
    ensures "test" !in Names(DocKids(k))
    decreases k
  {
    if k == 0 {
      assert FixturePaths()[..k] == [];
    } else {
      TestAbsent(k - 1);
      TestAbsentStep(k - 1);
    }
  }

  /** `documentation/test/index.md` adds `test` below `documentation`, without children yet. */
  lemma TestInserted(k: nat)
    requires k == 8
    ensures Child(DocKids(k + 1), "test") ==
      Some(NavNode("test", "/docs/" + Join(["documentation", "test"]), Absent))
  {
    TestAbsent(k);
    NavStep(k);
    NavPartsEight();
    NewGrandchild(NavAfter(k), "documentation", "test");
  }

  /** `documentation/test/test2.md` gives `test` its only child, `test2`. */
  lemma TestGetsTest2(k: nat)
    requires k == 9
    ensures Child(DocKids(k + 1), "test") ==
      Some(NavNode("test", "/docs/" + Join(["documentation", "test"]),
        Present([NavNode("test2", "/docs/" + Join(["documentation", "test", "test2"]), Absent)])))
  {
    TestInserted(k - 1);
    NavStep(k);
    NavPartsNine();
    GrandchildGetsChild(NavAfter(k), "documentation", "test", "test2", "/docs/" + Join(["documentation", "test"]));
  }

  lemma DocTestHrefs()
    ensures "/docs/" + Join(["documentation", "test"]) == "/docs/documentation/test"
    ensures "/docs/" + Join(["documentation", "test", "test2"]) == "/docs/documentation/test/test2"
  {
    assert Join(["documentation", "test"]) == "documentation/test";
    assert Join(["documentation", "test", "test2"]) == "documentation/test/test2";
  }

  /**
   * On the fixture, `documentation/test` is a node linked to
   * `/docs/documentation/test` whose single child is the leaf `test2`.
   */
  lemma FixtureDocumentationTest()
    ensures Child(KidsOf(Child(NavTree(FixturePaths()), "documentation")), "test") ==
      Some(NavNode("test", "/docs/documentation/test",
        Present([NavNode("test2", "/docs/documentation/test/test2", Absent)])))
  {
    TestGetsTest2(9);
    NavAfterAll();
    DocTestHrefs();
  }
}
