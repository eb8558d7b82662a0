# Content addressing of an MDX documentation site

This project models the part of a Next.js MDX documentation template that
turns a flat list of Markdown/MDX file paths into lookup keys, resolves
request slugs against them, and builds the directory tree and the sidebar
navigation forest. It proves properties of that model in Dafny.

- **Manifest generation** (`ManifestGen`, `generate_manifest.dfy`).
  - `toSlug` strips one `.md`/`.mdx` and then one `/index`.
  - Backslashes in the discovered entries become forward slashes.
  - The per-file loop registers each file's alias keys in a key → module table.
  - A missing content directory yields the empty manifest.
  - A module handle `M{i}` is modelled as the index `i` of the file it imports.
- **Runtime lookups** (`Mdx`, `mdx.dfy`).
  - `normalizeSlug`.
  - `getMdxBySlug`, which probes six candidate keys in order.
  - `hasIndexMdx`.
  - `listDirectoryMdxSlugs`.
  - `listDirectoryTree`, which builds a `Leaf | Branch(map)` tree.
  - `allContentPaths` is the manifest's `paths` itself (`Manifest.paths`).
- **Navigation** (`NavUtil`, `nav_util.dfy`).
  - `normalizePath`.
  - `buildNavTree`, which builds the forest of `NavNode { label, href, children? }`.
  - `getBreadcrumbs`.
- **Sidebar rules** (`SidebarNav`, `sidebar_nav.dfy`).
  - `filterIndex`.
  - The "active" and "default open" path comparisons.
- **The generated manifest shipped with the site** (`Fixture` in `mdx_manifest.dfy`, `FixtureNav` in `fixture_nav.dfy`).
  - Its 10 paths and 24 keys are proved to be what the generator produces.
  - Also proved: what resolution, the directory tree and the navigation forest make of it.
- **Helpers** (`Text`, `text.dfy`; `Wrappers`, `wrappers.dfy`).
  - Case-insensitive suffix matching for the fixed regular expressions.
  - `split("/")` and `join("/")`.
  - An `Option` type.

The imperative loops are Dafny methods whose postconditions tie them to specification functions:
- `GenerateManifest` and `AddFileRecords`;
- `GetMdxBySlug`;
- `ListDirectoryTree`;
- `BuildNavTree`;
- `GetBreadcrumbs`.

The properties are proved about those functions.

Behaviour of the code a reader may not expect:
- **A root-level `index.md` gets the slug `index`, not the empty slug.** The `/index` strip needs a preceding `/`. So `getMdxBySlug("")` cannot reach that document (`Mdx.RootIndexUnreachable`), and `normalizePath` makes an `index` root node of it (`NavUtil.NormalizePathExample`).
- **`listDirectoryTree` depends on the order of the paths.** A leaf becomes a branch when a later path passes through it, but a later final segment overwrites a branch with a leaf. So `["a/b.md", "a.md"]` and `["a.md", "a/b.md"]` give different trees (`Mdx.DirectoryTreeOrderMatters`).
- **Only one extension and one `/index` are stripped.** A slug can still carry an extension or end in `/index` (`ManifestGen.ToSlugStripsOnce`). A listed directory entry can keep an extension too (`Mdx.ListedSlugKeepsExtension`).
- **Slugs can collide beyond `d.md` and `d/index.md`.** `a.md`, `a.mdx` and `a/INDEX.md` all take the slug `a`.
- **The `index` leaf check of `listDirectoryTree` is case-sensitive.** The extension and `/index` stripping ignore case.
- **The breadcrumb root is fixed.** It is `/a`, labelled `Articles`.

## Model

| member | source | states |
|---|---|---|
| Text.StripMdExt | scripts/generate-mdx-manifest.mjs:10 | removing a trailing `.md`/`.mdx` (any case) leaves a prefix of the path |
| Text.MdExtLen | src/lib/mdx.ts:41 | the matched extension is 0, 3 or 4 characters long and fits in the string |
| Text.ReplaceBackslashes | scripts/generate-mdx-manifest.mjs:32 | same length, no backslash left, each backslash replaced by `/` and every other character kept |
| Text.Split | src/components/layouts/mdx-slug-layout/util.ts:23 | `split("/")` yields at least one piece, and no piece holds a `/` |
| Text.JoinSplit | src/components/layouts/mdx-slug-layout/util.ts:23 | joining the pieces of a split with `/` gives back the string |
| Text.SplitJoin | src/components/layouts/mdx-slug-layout/util.ts:23 | splitting the join of a non-empty list of slash-free segments gives back the list |
| Text.JoinSnoc | src/components/layouts/mdx-slug-layout/util.ts:55 | appending a segment appends `/` and the segment to the joined string |
| Text.JoinInjective | src/components/layouts/mdx-slug-layout/SidebarNav.tsx:84 | two non-empty lists of slash-free segments join alike exactly when they are equal |
| ManifestGen.ToSlug | scripts/generate-mdx-manifest.mjs:9-10 | the slug is a prefix of the path, shorter by one of the possible stripped lengths |
| ManifestGen.ToSlugIndexDocument | scripts/generate-mdx-manifest.mjs:9-10 | `dir/index.md`, `dir/index.mdx` and `dir/INDEX.MD` all take the slug `dir` |
| ManifestGen.IndexStem | scripts/generate-mdx-manifest.mjs:10 | `dir/index` followed by one `.md`/`.mdx` extension, in any case, takes the slug `dir` |
| ManifestGen.ToSlugRootIndex | scripts/generate-mdx-manifest.mjs:10 | a root-level `index.md`/`index.mdx` keeps the slug `index` |
| ManifestGen.ToSlugPlainDocument | scripts/generate-mdx-manifest.mjs:9-10 | a document not ending in `/index` takes its extension-free path as slug |
| ManifestGen.ToSlugStripsOnce | scripts/generate-mdx-manifest.mjs:10 | only one extension and one `/index` are removed, and `a.md`, `a.mdx`, `a/INDEX.md` share a slug |
| ManifestGen.SetAdd | scripts/generate-mdx-manifest.mjs:46-53 | adding to an insertion-ordered set keeps it duplicate-free and adds exactly the new element |
| ManifestGen.FileKeySet | scripts/generate-mdx-manifest.mjs:41-53 | a file's keys are duplicate-free and are exactly its raw path, its extension-free path and its slug |
| ManifestGen.FileKeyCount | scripts/generate-mdx-manifest.mjs:46-53 | a document with a non-empty slug has no empty key, and has 3 keys when its slug differs from its extension-free path, else 2 |
| ManifestGen.KeyOrder | scripts/generate-mdx-manifest.mjs:70-71 | the keys of the emitted object are duplicate-free and are exactly the keys of the table |
| ManifestGen.Generate | scripts/generate-mdx-manifest.mjs:13-36 | a missing directory gives empty paths, keys and table; otherwise `paths` is the normalised entries in order, free of backslashes, and keys and table agree |
| ManifestGen.AddFileRecords | scripts/generate-mdx-manifest.mjs:55-58 | the inner loop appends one record per non-empty key of the file, never a duplicate line |
| ManifestGen.GenerateManifest | scripts/generate-mdx-manifest.mjs:31-71 | the generator's loop computes exactly the manifest `Generate` describes |
| ManifestGen.TableAppend | scripts/generate-mdx-manifest.mjs:70-71 | the table of concatenated records is the first table overridden by the second |
| ManifestGen.TableTagged | scripts/generate-mdx-manifest.mjs:55-57 | one file's records map each of its non-empty keys to its index |
| ManifestGen.TableKeysOfRecords | scripts/generate-mdx-manifest.mjs:55-57 | a key is in the table exactly when it is non-empty and in some file's key set |
| ManifestGen.TableValueOfRecords | scripts/generate-mdx-manifest.mjs:70-71 | each key maps to the last file whose key set holds it |
| ManifestGen.ModulesLastWriterWins | scripts/generate-mdx-manifest.mjs:38-71 | a key is in `modules` exactly when some file registers it, and it then names the last such file |
| ManifestGen.RecordsLastWriterWins | scripts/generate-mdx-manifest.mjs:55-71 | for any path list, a key is in the table built from its key sets exactly when some path registers it, and it then names the last such path |
| ManifestGen.NoEmptyKey | scripts/generate-mdx-manifest.mjs:55-57 | the empty string is never a key |
| ManifestGen.OwnKeysResolveToFile | scripts/generate-mdx-manifest.mjs:39-57 | a file's key maps to that file unless a later file registers it too |
| Mdx.NormalizeSlug | src/lib/mdx.ts:4-6 | at most one trailing `/` is removed, and one is removed exactly when there is one |
| Mdx.FirstPresent | src/lib/mdx.ts:20-24 | none exactly when no candidate is a key; otherwise the module of the first candidate that is a key |
| Mdx.GetMdxBySlug | src/lib/mdx.ts:10-25 | the probing loop returns the module of the first present candidate among `s`, `s.mdx`, `s.md`, `s/index`, `s/index.mdx`, `s/index.md`, or none |
| Mdx.HasIndexMdxResolves | src/lib/mdx.ts:27-32 | a slug with an index document always resolves; without a direct hit it resolves exactly when it has one, to one of its index keys |
| Mdx.DirPrefix | src/lib/mdx.ts:36 | the prefix is empty or ends in `/` |
| Mdx.ListedSlugs | src/lib/mdx.ts:39-46 | the filter/map chain yields exactly the stripped keys that pass the filters |
| Mdx.Dedup | src/lib/mdx.ts:48 | `Array.from(new Set(xs))` is duplicate-free with the same elements |
| Mdx.ListDirectoryMdxSlugs | src/lib/mdx.ts:34-49 | the listing is duplicate-free and holds exactly the stripped extension-bearing keys directly under the prefix, excluding `index` documents |
| Mdx.ListedShape | src/lib/mdx.ts:42-46 | each listed slug is the prefix plus one slash-free segment, never `prefix + "index"` |
| Mdx.ListedSlugKeepsExtension | src/lib/mdx.ts:46 | a root document `a.md.md` is listed as `a.md`, which still has an extension |
| Mdx.ListedAtRoot | src/lib/mdx.ts:39-48 | the only path of a one-file manifest, when it passes the root filters, is listed as its extension-free path |
| Mdx.OnlyEntryIsKey | scripts/generate-mdx-manifest.mjs:31-71 | a one-file manifest of a non-empty, backslash-free path has that path among its keys |
| Mdx.TreeFiles | src/lib/mdx.ts:62-64 | every file the tree builder inserts starts with the prefix |
| Mdx.TreeFilesMembers | src/lib/mdx.ts:62-64 | the inserted files are exactly the extension-stripped paths that start with the prefix |
| Mdx.TreeFilesAllUnder | src/lib/mdx.ts:62-64 | paths that all strip to their stems under the prefix give exactly those stems |
| Mdx.TreeFilesNoneUnder | src/lib/mdx.ts:62-64 | paths none of which strips to something under the prefix give nothing |
| Mdx.TreeFilesAppend | src/lib/mdx.ts:62-64 | the file selection distributes over concatenation of path lists |
| Mdx.BuildTreePrefix | src/lib/mdx.ts:67-82 | the tree after one more file is the previous tree with that file's segments inserted |
| Mdx.InsertTwo | src/lib/mdx.ts:71-81 | a two-segment file turns its first segment into a branch (reusing an existing one) holding the second |
| Mdx.InsertNoIndexLeaf | src/lib/mdx.ts:80-81 | inserting a file never creates a leaf named `index` |
| Mdx.ListDirectoryTree | src/lib/mdx.ts:58-84 | the nested loops build exactly `DirectoryTree(paths, slugPath)`, and no leaf is named `index` |
| Mdx.InsertPath | src/lib/mdx.ts:70-81 | right after an insertion, every segment before the last is a branch and the last is a leaf unless it is `index` |
| Mdx.InsertFrame | src/lib/mdx.ts:70-81 | an insertion leaves every path that leaves its route untouched |
| Mdx.ResolveExactKey | src/lib/mdx.ts:13-24 | a slug that is itself a key (and has no trailing `/`) resolves to that key's module |
| Mdx.ResolveOwnKey | src/lib/mdx.ts:13-24 | any key a file registers, requested as a slug, resolves to that file unless a later file registers it |
| Mdx.ResolveIndexDocument | src/lib/mdx.ts:13-24 | `dir/index.md` resolves both as `dir` and as `dir/index` |
| Mdx.IndexDocumentKeys | scripts/generate-mdx-manifest.mjs:46-53 | `dir/index.md` registers `dir` and `dir/index` |
| Mdx.RootIndexKeys | scripts/generate-mdx-manifest.mjs:46-53 | a root `index.md` registers exactly `index.md` and `index` |
| Mdx.RootIndexUnreachable | src/lib/mdx.ts:14-19 | with only a root `index.md`, the empty slug resolves to nothing and `index` resolves to it |
| Mdx.DirectoryTreeOrderMatters | src/lib/mdx.ts:73-81 | `["a/b.md","a.md"]` gives `a: true`, while `["a.md","a/b.md"]` gives `a: {b: true}` |
| Mdx.LeafLastTree | src/lib/mdx.ts:73-81 | inserting `a` after `a/b` replaces the branch `a` by a leaf |
| Mdx.DirectoryLastTree | src/lib/mdx.ts:73-81 | inserting `a/b` after `a` turns the leaf `a` into a branch holding `b` |
| NavUtil.NormalizePath | src/components/layouts/mdx-slug-layout/util.ts:9-13 | the result is a prefix of the path without its `./`, shorter by one of the possible stripped lengths |
| NavUtil.NormalizePathAgreesWithSlug | src/components/layouts/mdx-slug-layout/util.ts:9-13 | without a leading `./`, `normalizePath` equals the generator's `toSlug` |
| NavUtil.NormalizePathExample | src/components/layouts/mdx-slug-layout/util.ts:10-11 | `./docs/Index.MDX` becomes `docs`, `index.md` stays `index`, `/index.md` becomes empty |
| NavUtil.NormalizePlainDocument | src/components/layouts/mdx-slug-layout/util.ts:9-13 | a plain document `p.md` normalises to `p` |
| NavUtil.LeafPath | src/components/layouts/mdx-slug-layout/util.ts:9-13 | `a.md` normalises to `a` for every non-empty slash-free label |
| NavUtil.DirectoryPath | src/components/layouts/mdx-slug-layout/util.ts:9-13 | `a/b.md` normalises to `a/b` unless it ends in `/index` |
| NavUtil.FindName | src/components/layouts/mdx-slug-layout/util.ts:31 | `find` returns the first position with the label, or the length when there is none |
| NavUtil.Child | src/components/layouts/mdx-slug-layout/util.ts:31 | the sibling with the label, present exactly when the label is among the siblings |
| NavUtil.InsertNavOk | src/components/layouts/mdx-slug-layout/util.ts:27-43 | inserting a path keeps labels unique, hrefs spelled from the root, and no child list empty; the label is appended only when new; no node of the sibling list it is inserted into loses its child list (`NavUtil.InsertKeepsKids` states this at every depth) |
| NavUtil.InsertNavShape | src/components/layouts/mdx-slug-layout/util.ts:27-43 | one insertion changes only the node `find` returns, or appends one; that node carries the first part, the old or a freshly spelled href, and the children the rest of the path gives it |
| NavUtil.ReplaceNodeOk | src/components/layouts/mdx-slug-layout/util.ts:31-35 | replacing one node by a well-formed node with the same label, or appending one with a new label, keeps the sibling list well formed, changes the labels only by that append, and keeps child lists present |
| NavUtil.InsertNavElsewhere | src/components/layouts/mdx-slug-layout/util.ts:31-35 | a path starting with another label leaves the node with this label unchanged |
| NavUtil.InsertNavHere | src/components/layouts/mdx-slug-layout/util.ts:27-43 | the node with the first label is reused or created with the href of the labels so far; it keeps a non-empty child list at the last part and receives the rest of the path otherwise |
| NavUtil.InsertNavNames | src/components/layouts/mdx-slug-layout/util.ts:31-35 | inserting adds at most the first part to the labels of the sibling list |
| NavUtil.NewChild | src/components/layouts/mdx-slug-layout/util.ts:31-39 | a new one-part label becomes a node without children, linked to `/docs/` and the labels so far |
| NavUtil.NewRoot | src/components/layouts/mdx-slug-layout/util.ts:31-39 | a new one-label path becomes a root without children, linked to `/docs/<label>` |
| NavUtil.NewGrandchild | src/components/layouts/mdx-slug-layout/util.ts:27-43 | a path `d/x` with a new `x` adds `x` without children below `d` |
| NavUtil.InsertKeepsMissing | src/components/layouts/mdx-slug-layout/util.ts:27-43 | a label missing below the root `d` stays missing after a path that does not continue from `d` into it |
| NavUtil.GrandchildGetsChild | src/components/layouts/mdx-slug-layout/util.ts:27-43 | a path `d/x/y` through a childless `x` gives `x` the single child `y` |
| NavUtil.RootDescends | src/components/layouts/mdx-slug-layout/util.ts:40-42 | a path through the root `d` inserts the rest of it into the children of `d` |
| NavUtil.ChildGetsLeaf | src/components/layouts/mdx-slug-layout/util.ts:27-43 | a path `x/y` through a childless sibling `x` gives `x` the single child `y` |
| NavUtil.NavTreeOk | src/components/layouts/mdx-slug-layout/util.ts:16-48 | the forest is well formed: unique labels, hrefs spelled from the root, no empty child list |
| NavUtil.BuildNavTree | src/components/layouts/mdx-slug-layout/util.ts:16-48 | the loop computes `NavTree(paths)`, and the result is well formed |
| NavUtil.SkippedPathsAddNothing | src/components/layouts/mdx-slug-layout/util.ts:20-21 | paths that normalise to the empty string appended at the end add nothing to the forest |
| NavUtil.NavTreeAppend | src/components/layouts/mdx-slug-layout/util.ts:19-45 | the forest of `a + b` is the forest of `a` with the paths of `b` inserted after it, one by one in order |
| NavUtil.SkippedPathsAnywhere | src/components/layouts/mdx-slug-layout/util.ts:20-21 | paths that normalise to the empty string add nothing to the forest wherever they stand in the list |
| NavUtil.NewLeaf | src/components/layouts/mdx-slug-layout/util.ts:32-39 | a one-part path in an empty list creates one node without children |
| NavUtil.ChildLeaf | src/components/layouts/mdx-slug-layout/util.ts:32-39 | the same below one label, with the href spelled through that label |
| NavUtil.LeafAndDirectoryCommute | src/components/layouts/mdx-slug-layout/util.ts:37-43 | a label that is a document in one path and a directory in another ends with children, in either order |
| NavUtil.InsertKeepsKids | src/components/layouts/mdx-slug-layout/util.ts:37-43 | inserting any path leaves every node that had children, at any depth, with a non-empty child list |
| NavUtil.InsertGivesKids | src/components/layouts/mdx-slug-layout/util.ts:27-43 | inserting a path gives every node it passes through (each proper prefix of its parts) a non-empty child list |
| NavUtil.PassedThroughHasKids | src/components/layouts/mdx-slug-layout/util.ts:16-48 | for any list of paths, a label path that some path passes through with parts after it names a node with a non-empty child list in the final forest, whatever the order and the other paths |
| NavUtil.NavTreeTwo | src/components/layouts/mdx-slug-layout/util.ts:16-48 | the forest of two paths is the second inserted into the forest of the first |
| NavUtil.LeafAndDirectorySteps | src/components/layouts/mdx-slug-layout/util.ts:19-45 | the four single insertions of `a.md` and `a/b.md` in either order |
| NavUtil.LeafAndDirectoryPaths | src/components/layouts/mdx-slug-layout/util.ts:20-23 | `a.md` and `a/b.md` normalise and split to `[a]` and `[a, b]` |
| NavUtil.LeafAndDirectoryInserts | src/components/layouts/mdx-slug-layout/util.ts:27-43 | the forests those segment lists give from empty and from each other |
| NavUtil.GetBreadcrumbs | src/components/layouts/mdx-slug-layout/util.ts:50-59 | `Articles` at `/a` first, then one crumb per segment labelled with it, whose href is `/a/` plus the segments so far joined by `/`, extending the previous href |
| SidebarNav.WithoutIndex | src/components/layouts/mdx-slug-layout/SidebarNav.tsx:63 | the labels other than `index`, in order |
| SidebarNav.FilterIndexSpec | src/components/layouts/mdx-slug-layout/SidebarNav.tsx:62-68 | no `index` node at any depth; surviving top labels in their original order; each output node keeps label and href, unchanged without children, with filtered children otherwise |
| SidebarNav.FilterNodeNoIndex | src/components/layouts/mdx-slug-layout/SidebarNav.tsx:63-67 | a mapped node has no `index` node below it |
| SidebarNav.FilterIndexIdempotent | src/components/layouts/mdx-slug-layout/SidebarNav.tsx:62-68 | filtering twice is filtering once |
| SidebarNav.FilterNodeIdempotent | src/components/layouts/mdx-slug-layout/SidebarNav.tsx:63-67 | mapping a node twice is mapping it once, and its label is kept |
| SidebarNav.IsActiveExact | src/components/layouts/mdx-slug-layout/SidebarNav.tsx:84 | with slash-free segments and a non-empty node path, a node is active exactly when its path equals the current path, also on the root docs page where the current path is empty, except for a top-level node labelled with the empty string |
| SidebarNav.IsActiveRootEdge | src/components/layouts/mdx-slug-layout/SidebarNav.tsx:84 | on the root docs page (empty current path) a top-level node labelled with the empty string counts as active though the paths differ |
| SidebarNav.IsActiveJoinsSlashes | src/components/layouts/mdx-slug-layout/SidebarNav.tsx:144 | a segment containing `/` makes different paths compare as active |
| SidebarNav.Take | src/components/layouts/mdx-slug-layout/SidebarNav.tsx:159 | `slice(0, n)` is the first `min(n, length)` elements |
| SidebarNav.DefaultOpenExact | src/components/layouts/mdx-slug-layout/SidebarNav.tsx:159 | with slash-free segments, a dropdown starts open exactly when the current path continues through the node path into the child |
| SidebarNav.DefaultOpenEmptyEdge | src/components/layouts/mdx-slug-layout/SidebarNav.tsx:120 | with empty paths, a child labelled `""` is open by default |
| Fixture.PlainDocumentKeys | scripts/generate-mdx-manifest.mjs:46-53 | a plain document `p.md` has exactly the keys `p.md` and `p`, in that order |
| Fixture.IndexDocumentKeySet | scripts/generate-mdx-manifest.mjs:46-53 | `d/index.md` has exactly the keys `d/index.md`, `d/index`, `d`, in that order |
| Fixture.TableOfPartition | scripts/generate-mdx-manifest.mjs:70-71 | key sets that partition a table's keys by value generate exactly that table |
| Fixture.FixtureKeySetAt0 | src/mdx-manifest.ts:31-32 | `M0` is keyed with and without its extension only |
| Fixture.FixtureKeySetAt1 | src/mdx-manifest.ts:33-34 | the key set of `documentation/emotion-with-next-app.md` |
| Fixture.FixtureKeySetAt2 | src/mdx-manifest.ts:35-37 | the key set of `documentation/index.md` |
| Fixture.FixtureKeySetAt3 | src/mdx-manifest.ts:38-39 | the key set of `documentation/typography.md` |
| Fixture.FixtureKeySetAt4 | src/mdx-manifest.ts:40-42 | the key set of `prompt-library/index.md` |
| Fixture.FixtureKeySetAt5 | src/mdx-manifest.ts:43-44 | the key set of `roadmap/core-sheet-diagrams.md` |
| Fixture.FixtureKeySetAt6 | src/mdx-manifest.ts:45-46 | the key set of `roadmap/core-sheet-model.md` |
| Fixture.FixtureKeySetAt7 | src/mdx-manifest.ts:47-49 | the key set of `roadmap/index.md` |
| Fixture.FixtureKeySetAt8 | src/mdx-manifest.ts:50-52 | the key set of `documentation/test/index.md` |
| Fixture.FixtureKeySetAt9 | src/mdx-manifest.ts:53-54 | the key set of `documentation/test/test2.md` |
| Fixture.FixtureKeySetsGenerated | src/mdx-manifest.ts:17-55 | the generator builds the listed key set for every fixture path |
| Fixture.FixtureNormalized | src/mdx-manifest.ts:17-28 | backslash normalisation leaves the fixture paths unchanged |
| Fixture.NormalizeNoop | scripts/generate-mdx-manifest.mjs:32 | entries without a backslash are left unchanged by normalisation |
| Fixture.FixtureKeysMapped | src/mdx-manifest.ts:30-55 | every key of file `i` is in `modules` and names `M{i}` |
| Fixture.FixtureModulesCovered | src/mdx-manifest.ts:30-55 | every key of `modules` lies in the key set of the file it names |
| Fixture.FixturePartition | src/mdx-manifest.ts:30-55 | the key sets partition the 24 keys by module, with no empty key |
| Fixture.FixtureTable | src/mdx-manifest.ts:30-55 | the table built from the fixture key sets is exactly `modules` |
| Fixture.FixtureIsGenerated | src/mdx-manifest.ts:17-55 | the generator run on `paths` reproduces `paths` and exactly the 24 keys of `modules` with the same modules |
| Fixture.FixturePathsDistinct | src/mdx-manifest.ts:17-28 | `paths` has 10 distinct entries |
| Fixture.FixtureDocumentationAliases | src/mdx-manifest.ts:35-37 | `documentation`, `documentation/`, `documentation/index` and `documentation/index.md` all resolve to `M2`, and `documentation` has an index document |
| Fixture.DocumentationExactKeys | src/mdx-manifest.ts:35-37 | the three keys of `M2` resolve to it |
| Fixture.DocumentationSlash | src/lib/mdx.ts:4-6 | `documentation/` resolves to `M2` after its slash is trimmed |
| Fixture.DocumentationHasIndex | src/lib/mdx.ts:27-32 | `documentation` has an index document |
| Fixture.FixtureDocFiles | src/mdx-manifest.ts:18-27 | `listDirectoryTree("documentation")` inserts the six extension-stripped paths under `documentation/`, in order |
| Fixture.FixtureDocumentationTree | src/mdx-manifest.ts:18-27 | `listDirectoryTree("documentation")` is `{design-values, emotion-with-next-app, typography: leaf; test: {test2: leaf}}` |
| Fixture.DirectoryWithSubdirectory | src/lib/mdx.ts:67-82 | three plain documents, an index, and a sub-directory with its index and one document build three leaves and a branch with one leaf |
| Fixture.PlainLeaves | src/lib/mdx.ts:67-82 | three plain documents and an index build three leaves |
| Fixture.SubdirectoryIndex | src/lib/mdx.ts:71-81 | a sub-directory's `index` document adds an empty branch |
| Fixture.SubdirectoryLeaf | src/lib/mdx.ts:71-81 | a document in that sub-directory becomes its single leaf |
| Fixture.LastFileTree | src/lib/mdx.ts:67-82 | the sixth file `pre + d/e` inserts the segments `[d, e]` into the tree so far |
| Fixture.InsertIntoEmptyDirectory | src/lib/mdx.ts:71-81 | inserting `d/e` where `d` is an empty branch makes `e` its single leaf, leaving the other entries alone |
| FixtureNav.NavTreePrefix | src/components/layouts/mdx-slug-layout/util.ts:19-45 | one more path with a non-empty normalised form inserts its segments into the forest so far |
| FixtureNav.NavStep | src/components/layouts/mdx-slug-layout/util.ts:19-45 | the `k`-th fixture path inserts its listed segments |
| FixtureNav.NamesStep | src/components/layouts/mdx-slug-layout/util.ts:31-35 | root labels after an insertion are the old ones, plus the first segment when it is new |
| FixtureNav.RootElsewhere | src/components/layouts/mdx-slug-layout/util.ts:31-35 | an insertion under another root leaves a root unchanged |
| FixtureNav.RootsAt | src/components/layouts/mdx-slug-layout/util.ts:16-48 | the root labels after each prefix of the fixture paths |
| FixtureNav.FixtureNavRoots | src/mdx-manifest.ts:17-28 | `buildNavTree(paths)` has roots `documentation`, `prompt-library`, `roadmap`, in that order |
| FixtureNav.PromptLibraryInserted | src/mdx-manifest.ts:22 | `prompt-library/index.md` adds the root `prompt-library` without children |
| FixtureNav.PromptLibraryAt | src/components/layouts/mdx-slug-layout/util.ts:16-48 | no later fixture path changes that root |
| FixtureNav.FixturePromptLibraryLeaf | src/mdx-manifest.ts:17-28 | in `buildNavTree(paths)`, `prompt-library` is a leaf linked to `/docs/prompt-library` |
| FixtureNav.TestAbsent | src/mdx-manifest.ts:18-25 | no fixture path before `documentation/test/index.md` puts `test` below `documentation` |
| FixtureNav.TestInserted | src/mdx-manifest.ts:26 | `documentation/test/index.md` adds `test` below `documentation`, without children |
| FixtureNav.TestGetsTest2 | src/mdx-manifest.ts:27 | `documentation/test/test2.md` gives `test` the single child `test2` |
| FixtureNav.FixtureDocumentationTest | src/mdx-manifest.ts:17-28 | in `buildNavTree(paths)`, `documentation/test` has the single child `test2`, with hrefs `/docs/documentation/test` and `/docs/documentation/test/test2` |

## Left out

- File-system work of the generator is not modelled:
  - enumeration with `fast-glob`;
  - `existsSync`, `mkdirSync`, `writeFileSync`.

  The discovered entries and whether the content directory exists are parameters of `Generate`.
- The emitted TypeScript text is not modelled: the `import` lines, `JSON.stringify`, and the `varName`/`importPath` strings. The model is the manifest's value, not its source text.
- MDX components and React module handles are modelled as file indices. A key's presence stands for `mod?.default` being truthy.
- The JavaScript regular-expression engine is not modelled. Its fixed patterns are written out as `seq<char>` predicates with ASCII case folding.
- The JSON key order of `DirTree` objects and the display order of `listDirectoryTree` are not modelled: the model's tree is a `map`.
- Mdx.Insert, Mdx.DirectoryTree and Mdx.ListDirectoryTree treat the tree objects as plain maps. In JavaScript the `{}` objects inherit names such as `constructor`, `toString`, `valueOf`, `hasOwnProperty` and `__proto__` from `Object.prototype`. A segment with one of those names behaves differently there: `docs/constructor/overview.md` finds an inherited function instead of a missing entry, and a final segment `__proto__` is not stored as a key. The model does not capture these names.
- ManifestGen.Table and ManifestGen.KeyOrder treat `__proto__` as an ordinary key. In the emitted object literal the property `"__proto__": { default: Mi }` sets the object's prototype instead of creating an own key, so `Object.keys(modules)` does not list it. A single file that registers `__proto__` still resolves through the prototype; two files that register it (say `__proto__.md` and `__proto__/index.md`) make the generated manifest fail to compile, since a literal may set `__proto__` only once. The model keeps the last writer in both cases.
- ManifestGen.KeyOrder: `Object.keys` lists integer-like keys (such as `42`) first, in ascending numeric order, before the other keys. The model keeps every key in the order the generated literal first mentions it, so the key order of `modules` differs from JavaScript's when a key is integer-like. The order of `listDirectoryMdxSlugs` is not affected: it keeps only keys ending in `.md`/`.mdx`, none of which is integer-like.
- `listDirectoryTree` and `buildNavTree` update their trees in place through a cursor. They are modelled as functions that rebuild the tree value (`Insert`, `InsertNav`), driven by method loops. Aliasing between the cursor and the tree is therefore not represented.
- `allContentPaths` is an alias of the manifest's `paths` and has no separate member.
- The JSX, CSS-in-JS and React state of the sidebar are not modelled. Only `filterIndex` and the `isActive`/`defaultOpen` comparisons are.
- The rest of the repository is not part of this model: page components, Mermaid rendering, code blocks, and configuration.
