/**
 * The documentation navigation: the forest of labelled nodes built from the
 * manifest paths, and the breadcrumb trail of a request.
 */
module NavUtil {
  import opened Wrappers
  import opened Text
  import opened ManifestGen

  /** A node's `children`: the property is either absent or holds a list. */
  datatype Kids = Absent | Present(nodes: seq<NavNode>)

  /** `NavNode`: a label (`name` here), the link target, and optional children. */
  datatype NavNode = NavNode(name: string, href: string, children: Kids)

  /**
   * `normalizePath`: drop a leading `./`, then one trailing `.md`/`.mdx`,
   * then one trailing `/index`, both ignoring case. The result is a prefix of
   * the path without its `./`, shorter by the length of what was stripped.
   */
  function NormalizePath(p: string): (clean: string)
    ensures StartsWith(StripDotSlash(p), clean)
    ensures |StripDotSlash(p)| - |clean| in {0, 3, 4, 6, 9, 10}
  {
    StripSlashIndex(StripMdExt(StripDotSlash(p)))
  }

  /** A path without a leading `./` gets the same slug here as in the manifest generator. */
  lemma NormalizePathAgreesWithSlug(p: string)
    requires !StartsWith(p, "./")
    ensures NormalizePath(p) == ToSlug(p)
  {
  }

  /** `normalizePath("./docs/Index.MDX")` strips all three parts. */
  lemma NormalizePathExample()
    ensures NormalizePath("./docs/Index.MDX") == "docs"
    ensures NormalizePath("index.md") == "index"
    ensures NormalizePath("/index.md") == ""
  {
    NormalizeDotSlashDocs();
    NormalizeRootIndex();
    NormalizeSlashIndex();
  }

  lemma NormalizeDotSlashDocs()
    ensures NormalizePath("./docs/Index.MDX") == "docs"
  {
    DotSlashDocs("./docs/Index.MDX");
  }

  lemma DotSlashDocs(p: string)
    requires p == "./docs/Index.MDX"
    ensures NormalizePath(p) == "docs"
  {
    assert StartsWith(p, "./");
    assert StripDotSlash(p) == p[2..];
    assert MdExtLen(p[2..]) == 4;
    assert StripMdExt(p[2..]) == p[2..12];
    assert EndsWithSlashIndex(p[2..12]);
    assert p[2..12][..4] == "docs";
  }

  lemma NormalizeRootIndex()
    ensures NormalizePath("index.md") == "index"
  {
    assert "index.md"[..2] != "./" by {
      assert "index.md"[..2][0] == 'i';
    }
    assert StripMdExt("index.md") == "index";
  }

  lemma NormalizeSlashIndex()
    ensures NormalizePath("/index.md") == ""
  {
    SlashIndexEmpty("/index.md");
  }

  lemma SlashIndexEmpty(p: string)
    requires p == "/index.md"
    ensures NormalizePath(p) == ""
  {
    assert p[..2][0] == '/';
    assert StripDotSlash(p) == p;
    assert StripMdExt(p) == p[..6];
    assert EndsWithSlashIndex(p[..6]);
  }

  /** `curr.find((n) => n.label === part)`: the first position labelled `name`, or `|forest|`. */
  function FindName(forest: seq<NavNode>, name: string): (i: nat)
    ensures i <= |forest|
    ensures i < |forest| ==> forest[i].name == name
    ensures forall j :: 0 <= j < i ==> forest[j].name != name
  {
    if forest == [] then 0
    else if forest[0].name == name then 0
    else 1 + FindName(forest[1..], name)
  }

  /** The labels of a sibling list, in order. */
  function Names(forest: seq<NavNode>): (names: seq<string>)
    ensures |names| == |forest|
    ensures forall i :: 0 <= i < |forest| ==> names[i] == forest[i].name
  {
    seq(|forest|, i requires 0 <= i < |forest| => forest[i].name)
  }

  /**
   * The inner loop of `buildNavTree` for one path, below the sibling list
   * `forest` whose labels from the root are `trail`: reuse the node labelled
   * with the next part or append a new one (with an empty child list and the
   * href of the labels so far), then either drop an empty child list at the
   * last part, or descend into the node's children, creating them if absent.
   */
  function InsertNav(forest: seq<NavNode>, trail: seq<string>, parts: seq<string>): seq<NavNode>
    requires |parts| >= 1
    decreases |parts|
  {
    var part := parts[0];
    var here := trail + [part];
    var i := FindName(forest, part);
    var grown := if i < |forest| then forest else forest + [NavNode(part, "/docs/" + Join(here), Present([]))];
    var node := grown[i];
    if |parts| == 1 then
      grown[i := if node.children == Present([]) then node.(children := Absent) else node]
    else
      var kids := if node.children.Present? then node.children.nodes else [];
      grown[i := node.(children := Present(InsertNav(kids, here, parts[1..])))]
  }

  /** One iteration of the outer loop: paths that normalise to nothing are skipped. */
  function AddPath(root: seq<NavNode>, raw: string): seq<NavNode> {
    var clean := NormalizePath(raw);
    if clean == "" then root else InsertNav(root, [], Split(clean))
  }

  /** The forest `buildNavTree(paths)` returns. */
  function NavTree(paths: seq<string>): seq<NavNode> {
    if paths == [] then []
    else AddPath(NavTree(paths[..|paths| - 1]), paths[|paths| - 1])
  }

  /**
   * A well-formed sibling list below the labels `trail`: labels are unique,
   * and every node is well formed.
   */
  predicate ForestOk(forest: seq<NavNode>, trail: seq<string>)
    decreases forest
  {
    && (forall i, j :: 0 <= i < j < |forest| ==> forest[i].name != forest[j].name)
    && (forall i :: 0 <= i < |forest| ==> NodeOk(forest[i], trail))
  }

  /**
   * A well-formed node below `trail`: its href is `/docs/` and the labels
   * from the root down to it joined by `/`, it never has an empty child
   * list, and its children are well formed.
   */
  predicate NodeOk(n: NavNode, trail: seq<string>)
    decreases n
  {
    && n.href == "/docs/" + Join(trail + [n.name])
    && n.children != Present([])
    && (n.children.Present? ==> ForestOk(n.children.nodes, trail + [n.name]))
  }

  /**
   * Inserting a path keeps the forest well formed, keeps every existing
   * node's position and label, appends the first part's label only when it
   * is new, and never takes a child list away from a node.
   */
  lemma {:induction false} InsertNavOk(forest: seq<NavNode>, trail: seq<string>, parts: seq<string>)
    requires |parts| >= 1
    requires ForestOk(forest, trail)
    ensures var r := InsertNav(forest, trail, parts);
      && ForestOk(r, trail)
      && Names(r) == (if parts[0] in Names(forest) then Names(forest) else Names(forest) + [parts[0]])
      && (forall i :: 0 <= i < |forest| && forest[i].children.Present? ==> r[i].children.Present?)
    decreases |parts|
  {
    var part := parts[0];
    var here := trail + [part];
    var i := FindName(forest, part);
    var r := InsertNav(forest, trail, parts);
    InsertNavShape(forest, trail, parts);
    if |parts| > 1 {
      var node := if i < |forest| then forest[i] else NavNode(part, "/docs/" + Join(here), Present([]));
      var kids := if node.children.Present? then node.children.nodes else [];
      assert ForestOk(kids, here);
      InsertNavOk(kids, here, parts[1..]);
    }
    assert NodeOk(r[i], trail);
    assert part in Names(forest) <==> i < |forest|;
    ReplaceNodeOk(forest, trail, r, i);
  }

  /**
   * What one insertion does to the sibling list: only the node at the
   * position `find` returns (or a new last node) changes, and it carries the
   * first part as label and the href of the labels so far.
   */
  lemma InsertNavShape(forest: seq<NavNode>, trail: seq<string>, parts: seq<string>)
    requires |parts| >= 1
    ensures var i := FindName(forest, parts[0]);
      var r := InsertNav(forest, trail, parts);
      && |r| == (if i < |forest| then |forest| else |forest| + 1)
      && (forall j :: 0 <= j < |forest| && j != i ==> r[j] == forest[j])
      && r[i].name == parts[0]
      && r[i].href == (if i < |forest| then forest[i].href else "/docs/" + Join(trail + [parts[0]]))
      && (|parts| == 1 ==>
            r[i].children == (if i < |forest| && forest[i].children != Present([]) then forest[i].children else Absent))
      && (|parts| > 1 ==>
            var kids := if i < |forest| && forest[i].children.Present? then forest[i].children.nodes else [];
            r[i].children == Present(InsertNav(kids, trail + [parts[0]], parts[1..])))
  {
  }

  /**
   * Replacing the node at `i` (or appending one there) by a well-formed node
   * with the same, or a new, label keeps the sibling list well formed.
   */
  lemma ReplaceNodeOk(forest: seq<NavNode>, trail: seq<string>, r: seq<NavNode>, i: nat)
    requires ForestOk(forest, trail) && i <= |forest|
    requires |r| == (if i < |forest| then |forest| else |forest| + 1)
    requires forall j :: 0 <= j < |forest| && j != i ==> r[j] == forest[j]
    requires NodeOk(r[i], trail)
    requires i < |forest| ==> r[i].name == forest[i].name
    requires i == |forest| ==> r[i].name !in Names(forest)
    requires i < |forest| && forest[i].children.Present? ==> r[i].children.Present?
    ensures ForestOk(r, trail)
    ensures Names(r) == (if i < |forest| then Names(forest) else Names(forest) + [r[i].name])
    ensures forall j :: 0 <= j < |forest| && forest[j].children.Present? ==> r[j].children.Present?
  {
    forall j, l | 0 <= j < l < |r|
      ensures r[j].name != r[l].name
    {
      if l == i {
        if i == |forest| {
          assert Names(forest)[j] == r[j].name;
        }
      }
    }
  }

  /** The node labelled `name` among the siblings `forest`, if there is one. */
  function Child(forest: seq<NavNode>, name: string): (r: Option<NavNode>)
    ensures r.Some? ==> r.value in forest && r.value.name == name
    ensures r.None? <==> name !in Names(forest)
  {
    var i := FindName(forest, name);
    if i < |forest| then Some(forest[i]) else None
  }

  /** The child list of an optional node, empty when there is no node or no list. */
  function KidsOf(o: Option<NavNode>): seq<NavNode> {
    if o.Some? && o.value.children.Present? then o.value.children.nodes else []
  }

  /** `FindName` is the only position that is labelled `name` with no earlier position so labelled. */
  lemma FindNameAt(forest: seq<NavNode>, name: string, k: nat)
    requires k <= |forest| && (k < |forest| ==> forest[k].name == name)
    requires forall j :: 0 <= j < k ==> forest[j].name != name
    ensures FindName(forest, name) == k
  {
  }

  /**
   * Inserting a path leaves the node labelled `name` as it was when the
   * path starts with a different label.
   */
  lemma InsertNavElsewhere(forest: seq<NavNode>, trail: seq<string>, parts: seq<string>, name: string)
    requires |parts| >= 1 && parts[0] != name
    ensures Child(InsertNav(forest, trail, parts), name) == Child(forest, name)
  {
    var part := parts[0];
    var i := FindName(forest, part);
    var r := InsertNav(forest, trail, parts);
    var f := FindName(forest, name);
    assert |r| == (if i < |forest| then |forest| else |forest| + 1);
    assert r[i].name == part;
    assert forall j :: 0 <= j < |r| && j != i ==> r[j] == forest[j];
    if f < |forest| {
      assert f != i;
      FindNameAt(r, name, f);
    } else {
      FindNameAt(r, name, |r|);
    }
  }

  /**
   * Inserting a path reuses the node labelled with its first part or
   * appends a new one with the href of the labels so far. When the path
   * ends there, the node keeps its non-empty child list and otherwise has
   * none; when it goes on, the rest is inserted into the node's children.
   */
  lemma InsertNavHere(forest: seq<NavNode>, trail: seq<string>, parts: seq<string>)
    requires |parts| >= 1
    ensures var o := Child(forest, parts[0]);
      var c := Child(InsertNav(forest, trail, parts), parts[0]);
      && c.Some?
      && c.value.href == (if o.Some? then o.value.href else "/docs/" + Join(trail + [parts[0]]))
      && c.value.children ==
        (if |parts| > 1 then Present(InsertNav(KidsOf(o), trail + [parts[0]], parts[1..]))
         else if o.Some? && o.value.children != Present([]) then o.value.children
         else Absent)
  {
    var part := parts[0];
    var i := FindName(forest, part);
    var r := InsertNav(forest, trail, parts);
    assert forall j :: 0 <= j < i ==> r[j] == forest[j];
    FindNameAt(r, part, i);
  }

  /** A one-label path whose label is new at the top becomes a root without children, linked to `/docs/<label>`. */
  lemma NewRoot(forest: seq<NavNode>, name: string)
    requires name !in Names(forest)
    ensures Child(InsertNav(forest, [], [name]), name) == Some(NavNode(name, "/docs/" + name, Absent))
  {
    var top: seq<string> := [];
    InsertNavHere(forest, top, [name]);
    assert top + [name] == [name];
  }

  /** A one-label path whose label is new below `trail` adds a node without children. */
  lemma NewChild(forest: seq<NavNode>, trail: seq<string>, name: string)
    requires name !in Names(forest)
    ensures Child(InsertNav(forest, trail, [name]), name) == Some(NavNode(name, "/docs/" + Join(trail + [name]), Absent))
  {
    InsertNavHere(forest, trail, [name]);
  }

  /** A two-part path `d/x` whose `x` is new below the root `d` adds `x` there without children. */
  lemma NewGrandchild(forest: seq<NavNode>, d: string, x: string)
    requires x !in Names(KidsOf(Child(forest, d)))
    ensures Child(KidsOf(Child(InsertNav(forest, [], [d, x]), d)), x) ==
      Some(NavNode(x, "/docs/" + Join([d, x]), Absent))
  {
    var top: seq<string> := [];
    InsertNavHere(forest, top, [d, x]);
    assert top + [d] == [d] && [d, x][1..] == [x];
    NewChild(KidsOf(Child(forest, d)), [d], x);
    assert [d] + [x] == [d, x];
  }

  /**
   * A three-part path `d/x/y` through a childless node `x` below the root `d`
   * gives `x` the single child `y`.
   */
  lemma GrandchildGetsChild(forest: seq<NavNode>, d: string, x: string, y: string, h: string)
    requires Child(KidsOf(Child(forest, d)), x) == Some(NavNode(x, h, Absent))
    ensures Child(KidsOf(Child(InsertNav(forest, [], [d, x, y]), d)), x) ==
      Some(NavNode(x, h, Present([NavNode(y, "/docs/" + Join([d, x, y]), Absent)])))
  {
    var kids := KidsOf(Child(forest, d));
    RootDescends(forest, d, [x, y]);
    ChildGetsLeaf(kids, [d], x, y, h);
    assert [d] + [x, y] == [d, x, y];
  }

  /** Inserting `d` followed by `rest` at the root inserts `rest` among the children of `d`. */
  lemma RootDescends(forest: seq<NavNode>, d: string, rest: seq<string>)
    requires |rest| >= 1
    ensures KidsOf(Child(InsertNav(forest, [], [d] + rest), d)) == InsertNav(KidsOf(Child(forest, d)), [d], rest)
  {
    var top: seq<string> := [];
    InsertNavHere(forest, top, [d] + rest);
    assert top + [d] == [d] && ([d] + rest)[1..] == rest && ([d] + rest)[0] == d;
  }

  /** A two-part insertion `x/y` through a childless sibling `x` gives it the single child `y`. */
  lemma ChildGetsLeaf(kids: seq<NavNode>, trail: seq<string>, x: string, y: string, h: string)
    requires Child(kids, x) == Some(NavNode(x, h, Absent))
    ensures Child(InsertNav(kids, trail, [x, y]), x) ==
      Some(NavNode(x, h, Present([NavNode(y, "/docs/" + Join(trail + [x, y]), Absent)])))
  {
    InsertNavHere(kids, trail, [x, y]);
    assert [x, y][1..] == [y];
    NewLeaf(trail + [x], y);
    assert trail + [x] + [y] == trail + [x, y];
  }

  /**
   * A label `x` missing below the root `d` stays missing after inserting a
   * path that does not continue from `d` into `x`.
   */
  lemma InsertKeepsMissing(forest: seq<NavNode>, parts: seq<string>, d: string, x: string)
    requires |parts| >= 1 && x !in Names(KidsOf(Child(forest, d)))
    requires |parts| > 1 && parts[0] == d ==> parts[1] != x
    ensures x !in Names(KidsOf(Child(InsertNav(forest, [], parts), d)))
  {
    var top: seq<string> := [];
    if parts[0] != d {
      InsertNavElsewhere(forest, top, parts, d);
    } else {
      InsertNavHere(forest, top, parts);
      if |parts| > 1 {
        InsertNavNames(KidsOf(Child(forest, d)), top + [d], parts[1..]);
      }
    }
  }

  /** Inserting a path adds at most its first part to the labels of the sibling list. */
  lemma InsertNavNames(forest: seq<NavNode>, trail: seq<string>, parts: seq<string>)
    requires |parts| >= 1
    ensures forall x :: x in Names(InsertNav(forest, trail, parts)) <==> x in Names(forest) || x == parts[0]
  {
    var i := FindName(forest, parts[0]);
    var r := InsertNav(forest, trail, parts);
    assert |r| == (if i < |forest| then |forest| else |forest| + 1);
    assert r[i].name == parts[0];
    assert forall j :: 0 <= j < |forest| ==> r[j].name == forest[j].name;
    forall x | x in Names(r)
      ensures x in Names(forest) || x == parts[0]
    {
      var j :| 0 <= j < |r| && Names(r)[j] == x;
      if j < |forest| {
        assert Names(forest)[j] == x;
      }
    }
    forall x | x in Names(forest)
      ensures x in Names(r)
    {
      var j :| 0 <= j < |forest| && Names(forest)[j] == x;
      assert Names(r)[j] == x;
    }
    assert Names(r)[i] == parts[0];
  }

  /** `buildNavTree`'s result is well formed. */
  lemma {:induction false} NavTreeOk(paths: seq<string>)
    ensures ForestOk(NavTree(paths), [])
  {
    if paths != [] {
      NavTreeOk(paths[..|paths| - 1]);
      var clean := NormalizePath(paths[|paths| - 1]);
      if clean != "" {
        InsertNavOk(NavTree(paths[..|paths| - 1]), [], Split(clean));
      }
    }
  }

  /**
   * `buildNavTree`: insert every path with a non-empty normalised form, in
   * order. The roots are labelled uniquely, in first-encounter order, every
   * href spells the labels down to its node, and no child list is empty.
   */
  method BuildNavTree(paths: seq<string>) returns (root: seq<NavNode>)
    ensures root == NavTree(paths)
    ensures ForestOk(root, [])
  {
    root := [];
    for n := 0 to |paths|
      invariant root == NavTree(paths[..n])
    {
      var clean := NormalizePath(paths[n]);
      assert paths[..n + 1][..n] == paths[..n];
      if clean == "" {
        continue;
      }
      var parts := Split(clean);
      root := InsertNav(root, [], parts);
    }
    assert paths[..|paths|] == paths;
    NavTreeOk(paths);
  }

  /** Paths that normalise to the empty string contribute nothing to the forest. */
  lemma {:induction false} SkippedPathsAddNothing(paths: seq<string>, extra: seq<string>)
    requires forall p :: p in extra ==> NormalizePath(p) == ""
    ensures NavTree(paths + extra) == NavTree(paths)
    decreases |extra|
  {
    if extra != [] {
      var pre := extra[..|extra| - 1];
      assert (paths + extra)[..|paths + extra| - 1] == paths + pre;
      assert extra[|extra| - 1] in extra;
      SkippedPathsAddNothing(paths, pre);
    } else {
      assert paths + extra == paths;
    }
  }

  /** The forest after inserting `extra`, in order, into `forest`. */
  function AddPaths(forest: seq<NavNode>, extra: seq<string>): seq<NavNode>
    decreases |extra|
  {
    if extra == [] then forest
    else AddPath(AddPaths(forest, extra[..|extra| - 1]), extra[|extra| - 1])
  }

  /** The forest of `a + b` is the forest of `a` with the paths of `b` inserted after it. */
  lemma {:induction false} NavTreeAppend(a: seq<string>, b: seq<string>)
    ensures NavTree(a + b) == AddPaths(NavTree(a), b)
    decreases |b|
  {
    if b == [] {
      assert a + b == a;
    } else {
      var pre := b[..|b| - 1];
      assert (a + b)[..|a + b| - 1] == a + pre;
      assert (a + b)[|a + b| - 1] == b[|b| - 1];
      NavTreeAppend(a, pre);
    }
  }

  /**
   * Paths that normalise to the empty string contribute nothing to the
   * forest wherever they stand in the list.
   */
  lemma SkippedPathsAnywhere(a: seq<string>, skipped: seq<string>, b: seq<string>)
    requires forall p :: p in skipped ==> NormalizePath(p) == ""
    ensures NavTree(a + skipped + b) == NavTree(a + b)
  {
    NavTreeAppend(a + skipped, b);
    NavTreeAppend(a, b);
    SkippedPathsAddNothing(a, skipped);
  }

  /**
   * The node reached from the sibling list `forest` by following the labels
   * `labels` one level at a time, if each of them is there.
   */
  function NodeAt(forest: seq<NavNode>, labels: seq<string>): (r: Option<NavNode>)
    requires |labels| >= 1
    ensures r.Some? ==> r.value.name == labels[|labels| - 1]
    decreases |labels|
  {
    var c := Child(forest, labels[0]);
    if |labels| == 1 || c.None? then c else NodeAt(KidsOf(c), labels[1..])
  }

  /** The optional node exists and has a non-empty child list. */
  predicate HasKids(o: Option<NavNode>) {
    o.Some? && o.value.children.Present? && o.value.children.nodes != []
  }

  /**
   * Inserting a path never takes the children away from a node, at any
   * depth: a node that had children still has some afterwards.
   */
  lemma {:induction false} InsertKeepsKids(forest: seq<NavNode>, trail: seq<string>, parts: seq<string>, labels: seq<string>)
    requires |parts| >= 1 && |labels| >= 1
    requires HasKids(NodeAt(forest, labels))
    ensures HasKids(NodeAt(InsertNav(forest, trail, parts), labels))
    decreases |labels|
  {
    var r := InsertNav(forest, trail, parts);
    if parts[0] != labels[0] {
      InsertNavElsewhere(forest, trail, parts, labels[0]);
    } else {
      InsertNavHere(forest, trail, parts);
      var o := Child(forest, labels[0]);
      var here := trail + [parts[0]];
      if |parts| > 1 {
        InsertNavNonEmpty(KidsOf(o), here, parts[1..]);
        if |labels| > 1 {
          InsertKeepsKids(KidsOf(o), here, parts[1..], labels[1..]);
        }
      } else if |labels| > 1 {
        assert NodeAt(forest, labels) == NodeAt(KidsOf(o), labels[1..]);
        assert Child(KidsOf(o), labels[1]).Some?;
        assert o.value.children != Present([]);
      }
    }
  }

  /**
   * Inserting a path gives children to every node it passes through: the
   * node at each proper prefix of its parts.
   */
  lemma {:induction false} InsertGivesKids(forest: seq<NavNode>, trail: seq<string>, parts: seq<string>, labels: seq<string>)
    requires 1 <= |labels| < |parts| && parts[..|labels|] == labels
    ensures HasKids(NodeAt(InsertNav(forest, trail, parts), labels))
    decreases |labels|
  {
    assert labels[0] == parts[0];
    InsertNavHere(forest, trail, parts);
    var o := Child(forest, parts[0]);
    var here := trail + [parts[0]];
    InsertNavNonEmpty(KidsOf(o), here, parts[1..]);
    if |labels| > 1 {
      PrefixTail(parts, labels);
      InsertGivesKids(KidsOf(o), here, parts[1..], labels[1..]);
    }
  }

  /** Inserting a path leaves at least one node in the sibling list. */
  lemma InsertNavNonEmpty(forest: seq<NavNode>, trail: seq<string>, parts: seq<string>)
    requires |parts| >= 1
    ensures InsertNav(forest, trail, parts) != []
  {
    InsertNavShape(forest, trail, parts);
  }

  /** Dropping the first element keeps a proper prefix a proper prefix. */
  lemma PrefixTail(parts: seq<string>, labels: seq<string>)
    requires 2 <= |labels| < |parts| && parts[..|labels|] == labels
    ensures 1 <= |labels[1..]| < |parts[1..]| && parts[1..][..|labels| - 1] == labels[1..]
  {
    assert forall j :: 0 <= j < |labels| - 1 ==> parts[1..][j] == parts[j + 1] && labels[1..][j] == labels[j + 1];
  }

  /**
   * A label path that some path passes through (with parts after it) ends
   * as a node with children in `buildNavTree`'s forest, wherever that path
   * stands and whatever the other paths are: a document `a.md` next to a
   * directory `a/` never hides the directory's entries.
   */
  lemma {:induction false} PassedThroughHasKids(paths: seq<string>, k: nat, labels: seq<string>)
    requires k < |paths| && NormalizePath(paths[k]) != ""
    requires var parts := Split(NormalizePath(paths[k]));
      1 <= |labels| < |parts| && parts[..|labels|] == labels
    ensures HasKids(NodeAt(NavTree(paths), labels))
    decreases |paths|
  {
    var pre := paths[..|paths| - 1];
    var clean := NormalizePath(paths[|paths| - 1]);
    if k == |paths| - 1 {
      InsertGivesKids(NavTree(pre), [], Split(clean), labels);
    } else {
      assert pre[k] == paths[k];
      PassedThroughHasKids(pre, k, labels);
      if clean != "" {
        InsertKeepsKids(NavTree(pre), [], Split(clean), labels);
      }
    }
  }

  /** A plain document `p.md` normalises to `p`. */
  lemma NormalizePlainDocument(p: string)
    requires !StartsWith(p, "./") && !EndsWithSlashIndex(p)
    ensures NormalizePath(p + ".md") == p
  {
    var s := p + ".md";
    assert !StartsWith(s, "./") by {
      if |p| >= 2 {
        assert s[..2] == p[..2];
      } else {
        assert s[1] == (if |p| == 1 then '.' else 'm');
      }
    }
    assert MdExtLen(s) == 3;
    assert s[..|p|] == p;
  }

  /** Inserting a one-part path into an empty sibling list creates one childless node. */
  lemma NewLeaf(trail: seq<string>, part: string)
    ensures InsertNav([], trail, [part]) == [NavNode(part, "/docs/" + Join(trail + [part]), Absent)]
  {
  }

  lemma ChildLeaf(a: string, b: string)
    ensures InsertNav([], [a], [b]) == [NavNode(b, "/docs/" + a + "/" + b, Absent)]
  {
    NewLeaf([a], b);
    assert [a] + [b] == [a, b];
    assert "/docs/" + (a + "/" + b) == "/docs/" + a + "/" + b;
  }

  /**
   * A label that is a document in one path (`a.md`) and a directory in
   * another (`a/b.md`) ends with children whichever path comes first.
   */
  lemma LeafAndDirectoryCommute(a: string, b: string)
    requires a != "" && a != "." && '/' !in a && '/' !in b
    requires !EndsWithSlashIndex(a + "/" + b)
    ensures var expected := [NavNode(a, "/docs/" + a, Present([NavNode(b, "/docs/" + a + "/" + b, Absent)]))];
      && NavTree([a + ".md", a + "/" + b + ".md"]) == expected
      && NavTree([a + "/" + b + ".md", a + ".md"]) == expected
  {
    LeafAndDirectorySteps(a, b);
    NavTreeTwo(a + ".md", a + "/" + b + ".md");
    NavTreeTwo(a + "/" + b + ".md", a + ".md");
  }

  /** The forest of two paths is the second inserted after the first. */
  lemma NavTreeTwo(p: string, q: string)
    ensures NavTree([p, q]) == AddPath(AddPath([], p), q)
  {
    var two := [p, q];
    assert two[..1] == [p];
    assert NavTree(two) == AddPath(NavTree([p]), q);
    NavTreeOne(p);
  }

  /** The forest of one path is that path inserted into an empty forest. */
  lemma NavTreeOne(p: string)
    ensures NavTree([p]) == AddPath([], p)
  {
    assert [p][..0] == [];
  }

  /** The single insertions `LeafAndDirectoryCommute` is made of. */
  lemma LeafAndDirectorySteps(a: string, b: string)
    requires a != "" && a != "." && '/' !in a && '/' !in b
    requires !EndsWithSlashIndex(a + "/" + b)
    ensures var leafA := NavNode(a, "/docs/" + a, Absent);
      var dirA := NavNode(a, "/docs/" + a, Present([NavNode(b, "/docs/" + a + "/" + b, Absent)]));
      && AddPath([], a + ".md") == [leafA]
      && AddPath([], a + "/" + b + ".md") == [dirA]
      && AddPath([leafA], a + "/" + b + ".md") == [dirA]
      && AddPath([dirA], a + ".md") == [dirA]
  {
    LeafAndDirectoryPaths(a, b);
    LeafAndDirectoryInserts(a, b);
  }

  lemma LeafAndDirectoryPaths(a: string, b: string)
    requires a != "" && a != "." && '/' !in a && '/' !in b
    requires !EndsWithSlashIndex(a + "/" + b)
    ensures NormalizePath(a + ".md") == a && Split(a) == [a]
    ensures NormalizePath(a + "/" + b + ".md") == a + "/" + b && Split(a + "/" + b) == [a, b]
  {
    LeafPath(a);
    DirectoryPath(a, b);
    SplitSegment(a);
    SplitSegments(a, b);
  }

  /** `a.md` normalises to `a` when `a` is one plain label. */
  lemma LeafPath(a: string)
    requires a != "" && '/' !in a
    ensures NormalizePath(a + ".md") == a
  {
    assert !StartsWith(a, "./") by {
      if |a| >= 2 {
        assert a[1] in a;
      }
    }
    assert !EndsWithSlashIndex(a) by {
      if |a| >= 6 {
        assert a[|a| - 6] in a;
      }
    }
    NormalizePlainDocument(a);
  }

  /** `a/b.md` normalises to `a/b` when it does not end in `/index`. */
  lemma DirectoryPath(a: string, b: string)
    requires a != "" && a != "." && '/' !in a
    requires !EndsWithSlashIndex(a + "/" + b)
    ensures NormalizePath(a + "/" + b + ".md") == a + "/" + b
  {
    var s := a + "/" + b;
    assert !StartsWith(s, "./") by {
      if |a| >= 2 {
        assert s[1] == a[1];
        assert a[1] in a;
      } else {
        assert s[0] == a[0];
        assert a == [a[0]];
      }
    }
    NormalizePlainDocument(s);
  }

  lemma LeafAndDirectoryInserts(a: string, b: string)
    ensures var leafA := NavNode(a, "/docs/" + a, Absent);
      var dirA := NavNode(a, "/docs/" + a, Present([NavNode(b, "/docs/" + a + "/" + b, Absent)]));
      && InsertNav([], [], [a]) == [leafA]
      && InsertNav([], [], [a, b]) == [dirA]
      && InsertNav([leafA], [], [a, b]) == [dirA]
      && InsertNav([dirA], [], [a]) == [dirA]
  {
    var top: seq<string> := [];
    assert top + [a] == [a];
    NewLeaf(top, a);
    ChildLeaf(a, b);
    assert [a, b][1..] == [b];
  }

  /** One breadcrumb: a link target and its label (`name` here). */
  datatype Crumb = Crumb(href: string, name: string)

  /**
   * `getBreadcrumbs`: the `Articles` root at `/a`, then one crumb per slug
   * segment whose href extends the previous one by `/` and the segment, so
   * it is `/a/` followed by the segments so far joined by `/`.
   */
  method GetBreadcrumbs(segs: seq<string>) returns (crumbs: seq<Crumb>)
    ensures |crumbs| == |segs| + 1
    ensures crumbs[0] == Crumb("/a", "Articles")
    ensures forall k :: 0 <= k < |segs| ==> crumbs[k + 1] == Crumb("/a/" + Join(segs[..k + 1]), segs[k])
    ensures forall k :: 0 <= k < |segs| ==> crumbs[k + 1].href == crumbs[k].href + "/" + segs[k]
  {
    var href := "/a";
    crumbs := [Crumb(href, "Articles")];
    for i := 0 to |segs|
      invariant |crumbs| == i + 1
      invariant crumbs[0] == Crumb("/a", "Articles")
      invariant href == crumbs[i].href
      invariant forall k :: 0 <= k < i ==> crumbs[k + 1] == Crumb("/a/" + Join(segs[..k + 1]), segs[k])
      invariant forall k :: 0 <= k < i ==> crumbs[k + 1].href == crumbs[k].href + "/" + segs[k]
    {
      var next := href + "/" + segs[i];
      assert next == "/a/" + Join(segs[..i + 1]) by {
        if i == 0 {
          assert segs[..1] == [segs[0]];
          assert "/a" + "/" == "/a/";
        } else {
          assert href == "/a/" + Join(segs[..i]) by {
            var k := i - 1;
            assert crumbs[k + 1] == Crumb("/a/" + Join(segs[..k + 1]), segs[k]);
          }
          assert segs[..i + 1] == segs[..i] + [segs[i]];
          JoinSnoc(segs[..i], segs[i]);
        }
      }
      crumbs := crumbs + [Crumb(next, segs[i])];
      href := next;
    }
  }
}
