/**
 * The sidebar's pure logic: removing `index` nodes from the navigation
 * forest before rendering, and the path comparisons that decide whether a
 * link is highlighted as active and whether a dropdown starts open.
 */
module SidebarNav {
  import opened Text
  import opened NavUtil

  /**
   * `filterIndex`: drop the siblings labelled `index`, keep the others in
   * order, and filter the children of those that have a child list.
   */
  function FilterIndex(nodes: seq<NavNode>): seq<NavNode>
    decreases nodes
  {
    if nodes == [] then []
    else
      var rest := FilterIndex(nodes[1..]);
      if nodes[0].name == "index" then rest else [FilterNode(nodes[0])] + rest
  }

  /** The `map` step of `filterIndex` for one surviving node. */
  function FilterNode(n: NavNode): NavNode
    decreases n
  {
    match n.children
    case Absent => n
    case Present(kids) => n.(children := Present(FilterIndex(kids)))
  }

  /** No node labelled `index` at any depth. */
  predicate NoIndex(nodes: seq<NavNode>)
    decreases nodes
  {
    forall i :: 0 <= i < |nodes| ==> nodes[i].name != "index" && NoIndexBelow(nodes[i])
  }

  predicate NoIndexBelow(n: NavNode)
    decreases n
  {
    n.children.Present? ==> NoIndex(n.children.nodes)
  }

  /** The labels of `names` other than `index`, in order: an independent reference for the order. */
  function WithoutIndex(names: seq<string>): (r: seq<string>)
    ensures forall x :: x in r <==> x in names && x != "index"
  {
    if names == [] then []
    else if names[0] == "index" then WithoutIndex(names[1..])
    else [names[0]] + WithoutIndex(names[1..])
  }

  /**
   * `m` is what `filterIndex` makes of the surviving node `n`: a node without
   * children as is; one with children with its label and href kept and its
   * children filtered.
   */
  predicate FilteredFrom(m: NavNode, n: NavNode) {
    && n.name != "index"
    && m.name == n.name && m.href == n.href
    && (n.children.Absent? ==> m == n)
    && (n.children.Present? ==> m.children == Present(FilterIndex(n.children.nodes)))
  }

  /**
   * The filtered forest has no `index` node at any depth, its top-level
   * labels are the surviving labels in their original order, and every
   * surviving node keeps its label and href: a node without children is
   * returned as is, one with children gets the filtered (possibly empty)
   * child list.
   */
  lemma {:induction false} FilterIndexSpec(nodes: seq<NavNode>)
    ensures NoIndex(FilterIndex(nodes))
    ensures Names(FilterIndex(nodes)) == WithoutIndex(Names(nodes))
    ensures forall m :: m in FilterIndex(nodes) ==> exists n :: n in nodes && FilteredFrom(m, n)
    decreases nodes
  {
    if nodes != [] {
      var n := nodes[0];
      FilterIndexSpec(nodes[1..]);
      assert Names(nodes) == [n.name] + Names(nodes[1..]);
      if n.name != "index" {
        FilterNodeNoIndex(n);
        var r := FilterIndex(nodes);
        assert r == [FilterNode(n)] + FilterIndex(nodes[1..]);
        assert Names(r) == [n.name] + Names(FilterIndex(nodes[1..]));
        forall m | m in r
          ensures exists n' :: n' in nodes && FilteredFrom(m, n')
        {
          if m == FilterNode(n) {
            assert n in nodes;
          } else {
            assert m in FilterIndex(nodes[1..]);
            var n' :| n' in nodes[1..] && FilteredFrom(m, n');
            assert n' in nodes;
          }
        }
      } else {
        forall m | m in FilterIndex(nodes)
          ensures exists n' :: n' in nodes && FilteredFrom(m, n')
        {
          var n' :| n' in nodes[1..] && FilteredFrom(m, n');
          assert n' in nodes;
        }
      }
    }
  }

  lemma {:induction false} FilterNodeNoIndex(n: NavNode)
    ensures NoIndexBelow(FilterNode(n))
    decreases n
  {
    if n.children.Present? {
      FilterIndexSpec(n.children.nodes);
    }
  }

  /** Filtering twice is filtering once. */
  lemma {:induction false} FilterIndexIdempotent(nodes: seq<NavNode>)
    ensures FilterIndex(FilterIndex(nodes)) == FilterIndex(nodes)
    decreases nodes
  {
    if nodes != [] {
      var n := nodes[0];
      FilterIndexIdempotent(nodes[1..]);
      if n.name != "index" {
        FilterNodeIdempotent(n);
        var r := FilterIndex(nodes);
        assert r == [FilterNode(n)] + FilterIndex(nodes[1..]);
        assert r[1..] == FilterIndex(nodes[1..]);
      }
    }
  }

  lemma {:induction false} FilterNodeIdempotent(n: NavNode)
    ensures FilterNode(FilterNode(n)) == FilterNode(n)
    ensures FilterNode(n).name == n.name
    decreases n
  {
    if n.children.Present? {
      FilterIndexIdempotent(n.children.nodes);
    }
  }

  /** `isActive`: the current path and the node's path join to the same string. */
  predicate IsActive(currentPath: seq<string>, nodePath: seq<string>) {
    Join(currentPath) == Join(nodePath)
  }

  /**
   * For slash-free segments and a non-empty node path (the sidebar always
   * passes at least the top-level label), being active is exactly having the
   * same segments. The current path may be empty (the root docs page); the
   * one exception is then a top-level node with the empty label.
   */
  lemma IsActiveExact(currentPath: seq<string>, nodePath: seq<string>)
    requires |nodePath| >= 1
    requires currentPath != [] || nodePath != [""]
    requires forall x :: x in currentPath ==> '/' !in x
    requires forall x :: x in nodePath ==> '/' !in x
    ensures IsActive(currentPath, nodePath) <==> currentPath == nodePath
  {
    if currentPath == [] {
      if |nodePath| >= 2 {
        assert Join(nodePath) == nodePath[0] + "/" + Join(nodePath[1..]);
        assert Join(nodePath)[|nodePath[0]|] == '/';
      } else {
        assert nodePath == [nodePath[0]];
      }
    } else {
      JoinInjective(currentPath, nodePath);
    }
  }

  /** On the root docs page, a top-level node labelled "" would count as active. */
  lemma IsActiveRootEdge()
    ensures IsActive([], [""])
    ensures [] != [""]
  {
  }

  /** Segments that hold a slash can make different paths active alike. */
  lemma IsActiveJoinsSlashes()
    ensures IsActive(["a/b"], ["a", "b"])
    ensures ["a/b"] != ["a", "b"]
  {
    assert Join(["a", "b"]) == "a/b";
  }

  /** `xs.slice(0, n)`: JavaScript clamps the end to the length. */
  function Take(xs: seq<string>, n: nat): (r: seq<string>)
    ensures |r| == if n <= |xs| then n else |xs|
    ensures r == xs[..|r|]
  {
    if n <= |xs| then xs[..n] else xs
  }

  /**
   * `defaultOpen` of the dropdown for `child` below `nodePath`: the first
   * `|nodePath| + 1` segments of the current path join to the same string as
   * `nodePath` followed by the child's label.
   */
  predicate DefaultOpen(currentPath: seq<string>, nodePath: seq<string>, child: string) {
    Join(Take(currentPath, |nodePath| + 1)) == Join(nodePath + [child])
  }

  /**
   * With slash-free segments and a non-empty `nodePath` (the sidebar always
   * passes at least the top-level label), a dropdown starts open exactly
   * when the current path continues through `nodePath` into `child`.
   */
  lemma DefaultOpenExact(currentPath: seq<string>, nodePath: seq<string>, child: string)
    requires |nodePath| >= 1
    requires forall x :: x in currentPath ==> '/' !in x
    requires forall x :: x in nodePath ==> '/' !in x
    requires '/' !in child
    ensures DefaultOpen(currentPath, nodePath, child) <==>
      |currentPath| > |nodePath| && currentPath[..|nodePath| + 1] == nodePath + [child]
  {
    var t := Take(currentPath, |nodePath| + 1);
    var want := nodePath + [child];
    assert forall x :: x in want ==> '/' !in x;
    assert forall x :: x in t ==> x in currentPath;
    if t == [] {
      assert Join(want) == Join(nodePath) + "/" + child by {
        JoinSnoc(nodePath, child);
      }
      assert |Join(want)| > 0;
    } else {
      JoinInjective(t, want);
    }
  }

  /** Without a label below the root, an empty current path opens a dropdown for the label `""`. */
  lemma DefaultOpenEmptyEdge()
    ensures DefaultOpen([], [], "")
  {
    assert Join([""]) == "";
  }
}
