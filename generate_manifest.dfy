/**
 * The build-time manifest generator: it turns the list of content files
 * discovered under the content directory into the ordered `paths` list and
 * the `modules` table that maps every alias key of a file to that file's
 * module handle. Handle `M{i}` imports `paths[i]`, so a handle is modelled
 * by its index `i`.
 */
module ManifestGen {
  import opened Text

  /**
   * The generated manifest. `keys` is the order in which the generated object
   * literal first mentions each key; `modules` maps each key to the index of
   * the file it resolves to.
   */
  datatype Manifest = Manifest(paths: seq<string>, keys: seq<string>, modules: map<string, nat>)

  const EmptyManifest := Manifest([], [], map[])

  predicate NoDup<T(==)>(xs: seq<T>) {
    forall i, j :: 0 <= i < j < |xs| ==> xs[i] != xs[j]
  }

  /** `toSlug`: one trailing `.md`/`.mdx`, then one trailing `/index`, both ignoring case. */
  function ToSlug(fp: string): (slug: string)
    ensures StartsWith(fp, slug)
    ensures |fp| - |slug| in {0, 3, 4, 6, 9, 10}
  {
    StripSlashIndex(StripMdExt(fp))
  }

  /** `Set.prototype.add` on an insertion-ordered set kept as a sequence. */
  function SetAdd(xs: seq<string>, x: string): (r: seq<string>)
    ensures NoDup(xs) ==> NoDup(r)
    ensures forall y :: y in r <==> y in xs || y == x
  {
    if x in xs then xs else xs + [x]
  }

  /**
   * The key set `main` builds for one file, in insertion order: the raw path,
   * the path without extension, the slug, and `${slug}/index` when the
   * extension-free path ends in `/index` (case-sensitively). The last key
   * never adds anything new: it is then the extension-free path itself.
   */
  function FileKeySet(rel: string): (keys: seq<string>)
    ensures NoDup(keys)
    ensures forall k :: k in keys <==> k == rel || k == StripMdExt(rel) || k == ToSlug(rel)
  {
    var explicit := StripMdExt(rel);
    var slug := ToSlug(rel);
    var keys := SetAdd(SetAdd([rel], explicit), slug);
    if EndsWith(explicit, "/index") then
      assert explicit[|explicit| - 6..] == "/index";
      assert slug + "/index" == explicit;
      SetAdd(keys, slug + "/index")
    else keys
  }

  /** The records `main` adds for file `i`: one per non-empty key, `{ default: M{i} }`. */
  function Tagged(keys: seq<string>, i: nat): seq<(string, nat)> {
    if keys == [] then []
    else
      var rest := Tagged(keys[..|keys| - 1], i);
      if keys[|keys| - 1] == "" then rest else rest + [(keys[|keys| - 1], i)]
  }

  /** The key set of every file, in discovery order. */
  function KeySets(norm: seq<string>): (ks: seq<seq<string>>)
    ensures |ks| == |norm| && forall i :: 0 <= i < |norm| ==> ks[i] == FileKeySet(norm[i])
  {
    seq(|norm|, i requires 0 <= i < |norm| => FileKeySet(norm[i]))
  }

  /** The distinct record lines of the generated `modules` literal, file by file. */
  function Records(ks: seq<seq<string>>): seq<(string, nat)> {
    if ks == [] then []
    else Records(ks[..|ks| - 1]) + Tagged(ks[|ks| - 1], |ks| - 1)
  }

  /**
   * The value of the generated object literal: a key written twice keeps
   * the value of its last line.
   */
  function Table(rs: seq<(string, nat)>): map<string, nat> {
    if rs == [] then map[]
    else Table(rs[..|rs| - 1])[rs[|rs| - 1].0 := rs[|rs| - 1].1]
  }

  /** The keys of the generated object literal in the order they first appear. */
  function KeyOrder(rs: seq<(string, nat)>): (ks: seq<string>)
    ensures NoDup(ks)
    ensures forall k :: k in ks <==> k in Table(rs)
  {
    if rs == [] then []
    else SetAdd(KeyOrder(rs[..|rs| - 1]), rs[|rs| - 1].0)
  }

  /** `entries.map((e) => e.replace(/\\/g, "/"))`. */
  function Normalize(entries: seq<string>): (norm: seq<string>)
    ensures |norm| == |entries|
    ensures forall i :: 0 <= i < |entries| ==> norm[i] == ReplaceBackslashes(entries[i])
  {
    seq(|entries|, i requires 0 <= i < |entries| => ReplaceBackslashes(entries[i]))
  }

  /**
   * The manifest the generator writes, for a content directory that exists
   * (`dirExists`) and whose discovered entries are `entries`, in discovery
   * order. A missing directory yields the empty manifest.
   */
  function Generate(dirExists: bool, entries: seq<string>): (m: Manifest)
    ensures !dirExists ==> m.paths == [] && m.keys == [] && m.modules == map[]
    ensures dirExists ==> |m.paths| == |entries|
    ensures dirExists ==> m.paths == Normalize(entries)
    ensures forall p :: p in m.paths ==> '\\' !in p
    ensures NoDup(m.keys) && forall k :: k in m.keys <==> k in m.modules
  {
    if !dirExists then EmptyManifest
    else
      var rs := Records(KeySets(Normalize(entries)));
      Manifest(Normalize(entries), KeyOrder(rs), Table(rs))
  }

  /**
   * The inner `keys.forEach` of `main` for file `i`: every non-empty key of
   * the file's key set is added to the `recordLines` set. Earlier files only
   * contributed records of smaller index and the key set has no repeats, so
   * no addition is ever a duplicate.
   */
  method AddFileRecords(recordLines: seq<(string, nat)>, keys: seq<string>, i: nat)
    returns (lines: seq<(string, nat)>)
    requires NoDup(keys)
    requires forall r :: r in recordLines ==> r.1 < i
    ensures lines == recordLines + Tagged(keys, i)
    ensures forall r :: r in lines ==> r.1 <= i
  {
    lines := recordLines;
    for j := 0 to |keys|
      invariant lines == recordLines + Tagged(keys[..j], i)
      invariant forall r :: r in lines ==> r.1 < i || (r.1 == i && r.0 in keys[..j])
    {
      var k := keys[j];
      assert keys[..j + 1][..j] == keys[..j];
      if k == "" {
        continue;
      }
      if (k, i) !in lines {
        lines := lines + [(k, i)];
      } else {
        assert false;
      }
    }
    assert keys[..|keys|] == keys;
  }

  /**
   * `main`: the `forEach` over the normalised entries that fills the
   * `recordLines` set. File writing is not modelled; the result is the
   * manifest the written file defines.
   */
  method GenerateManifest(dirExists: bool, entries: seq<string>) returns (m: Manifest)
    ensures m == Generate(dirExists, entries)
  {
    if !dirExists {
      return EmptyManifest;
    }
    var norm := Normalize(entries);
    ghost var ks := KeySets(norm);
    var recordLines: seq<(string, nat)> := [];
    for i := 0 to |norm|
      invariant recordLines == Records(ks[..i])
      invariant forall r :: r in recordLines ==> r.1 < i
    {
      recordLines := AddFileRecords(recordLines, FileKeySet(norm[i]), i);
      RecordsSnoc(ks, i);
    }
    assert ks[..|norm|] == ks;
    m := Manifest(norm, KeyOrder(recordLines), Table(recordLines));
  }

  /** The records of one more file follow those of the files before it. */
  lemma RecordsSnoc(ks: seq<seq<string>>, i: nat)
    requires i < |ks|
    ensures Records(ks[..i + 1]) == Records(ks[..i]) + Tagged(ks[i], i)
  {
    assert ks[..i + 1][..i] == ks[..i];
  }

  /** Key `k` is registered for the file at relative path `rel`. */
  predicate Registers(rel: string, k: string) {
    k != "" && k in FileKeySet(rel)
  }

  lemma {:induction false} TableAppend(a: seq<(string, nat)>, b: seq<(string, nat)>)
    ensures Table(a + b) == Table(a) + Table(b)
    decreases |b|
  {
    if b != [] {
      var b' := b[..|b| - 1];
      assert (a + b)[..|a + b| - 1] == a + b';
      TableAppend(a, b');
    } else {
      assert a + b == a;
    }
  }

  lemma {:induction false} TableTagged(keys: seq<string>, i: nat)
    ensures Table(Tagged(keys, i)) == map k | k in keys && k != "" :: i
  {
    if keys != [] {
      var pre := keys[..|keys| - 1];
      TableTagged(pre, i);
      var rest := Tagged(pre, i);
      var last := keys[|keys| - 1];
      assert keys == pre + [last];
      if last != "" {
        assert Tagged(keys, i) == rest + [(last, i)];
        assert Table(rest + [(last, i)]) == Table(rest)[last := i] by {
          assert (rest + [(last, i)])[..|rest|] == rest;
        }
      }
    }
  }

  /** The table built from the records of the key sets `ks` holds exactly their non-empty keys. */
  lemma {:induction false} TableKeysOfRecords(ks: seq<seq<string>>, k: string)
    ensures k in Table(Records(ks)) <==> k != "" && exists i :: 0 <= i < |ks| && k in ks[i]
  {
    if ks != [] {
      var n := |ks| - 1;
      var pre := ks[..n];
      TableKeysOfRecords(pre, k);
      TableAppend(Records(pre), Tagged(ks[n], n));
      TableTagged(ks[n], n);
      if k != "" && k !in ks[n] && exists i :: 0 <= i < |ks| && k in ks[i] {
        var i :| 0 <= i < |ks| && k in ks[i];
        assert pre[i] == ks[i];
      }
    }
  }

  /**
   * The table built from the records of the key sets `ks` maps each key to
   * the LAST file whose key set holds it.
   */
  lemma {:induction false} TableValueOfRecords(ks: seq<seq<string>>, k: string)
    requires k in Table(Records(ks))
    ensures var j := Table(Records(ks))[k];
      j < |ks| && k in ks[j] && forall i :: j < i < |ks| ==> k !in ks[i]
  {
    var n := |ks| - 1;
    var pre := ks[..n];
    var tn := Table(Tagged(ks[n], n));
    assert Records(ks) == Records(pre) + Tagged(ks[n], n);
    TableAppend(Records(pre), Tagged(ks[n], n));
    TableTagged(ks[n], n);
    if k in tn {
      assert Table(Records(ks))[k] == n;
    } else {
      assert k in Table(Records(pre)) && Table(Records(ks))[k] == Table(Records(pre))[k];
      TableValueOfRecords(pre, k);
      TableKeysOfRecords(pre, k);
      assert k !in ks[n];
      assert forall i :: 0 <= i < n ==> pre[i] == ks[i];
    }
  }

  /**
   * Later discovery wins: in a generated manifest every key resolves to the
   * last discovered file that registers it, and a key is present exactly
   * when some file registers it.
   */
  lemma ModulesLastWriterWins(entries: seq<string>, k: string)
    ensures var m := Generate(true, entries);
      (k in m.modules <==> exists i :: 0 <= i < |m.paths| && Registers(m.paths[i], k))
      && (k in m.modules ==>
            && m.modules[k] < |m.paths|
            && Registers(m.paths[m.modules[k]], k)
            && forall i :: m.modules[k] < i < |m.paths| ==> !Registers(m.paths[i], k))
  {
    var m := Generate(true, entries);
    assert m.modules == Table(Records(KeySets(m.paths)));
    RecordsLastWriterWins(m.paths, k);
  }

  /** `ModulesLastWriterWins` for the table built from the key sets of `paths`. */
  lemma RecordsLastWriterWins(paths: seq<string>, k: string)
    ensures var t := Table(Records(KeySets(paths)));
      (k in t <==> exists i :: 0 <= i < |paths| && Registers(paths[i], k))
      && (k in t ==>
            && t[k] < |paths|
            && Registers(paths[t[k]], k)
            && forall i :: t[k] < i < |paths| ==> !Registers(paths[i], k))
  {
    var ks := KeySets(paths);
    assert forall i :: 0 <= i < |paths| ==> (Registers(paths[i], k) <==> k != "" && k in ks[i]);
    TableKeysOfRecords(ks, k);
    if k in Table(Records(ks)) {
      TableValueOfRecords(ks, k);
    }
  }

  /** The empty string is never a key: `main` skips falsy keys. */
  lemma NoEmptyKey(entries: seq<string>)
    ensures "" !in Generate(true, entries).modules
  {
    ModulesLastWriterWins(entries, "");
  }

  /**
   * Every discovered file's own keys resolve to it unless a later file
   * registers the same key.
   */
  lemma OwnKeysResolveToFile(entries: seq<string>, i: nat, k: string)
    requires i < |entries|
    requires Registers(Generate(true, entries).paths[i], k)
    requires forall j :: i < j < |entries| ==> !Registers(Generate(true, entries).paths[j], k)
    ensures k in Generate(true, entries).modules && Generate(true, entries).modules[k] == i
  {
    var m := Generate(true, entries);
    ModulesLastWriterWins(entries, k);
    var j := m.modules[k];
    assert !(j < i) && !(i < j);
  }

  /**
   * A document file (one with a `.md`/`.mdx` extension and a non-empty slug)
   * has exactly three distinct keys when its slug differs from its
   * extension-free path (an `index` document), and two otherwise.
   */
  lemma FileKeyCount(rel: string)
    requires HasMdExt(rel) && ToSlug(rel) != ""
    ensures "" !in FileKeySet(rel)
    ensures |FileKeySet(rel)| == if ToSlug(rel) == StripMdExt(rel) then 2 else 3
  {
    var explicit := StripMdExt(rel);
    var slug := ToSlug(rel);
    assert |explicit| < |rel|;
    var ks := SetAdd(SetAdd([rel], explicit), slug);
    assert SetAdd([rel], explicit) == [rel, explicit];
    if slug == explicit {
      assert ks == [rel, explicit];
    } else {
      assert ks == [rel, explicit, slug];
    }
  }

  /** `dir/index.md` and `dir/index.mdx`, in any letter case, take the slug `dir`. */
  lemma ToSlugIndexDocument(dir: string)
    ensures ToSlug(dir + "/index.md") == dir
    ensures ToSlug(dir + "/index.mdx") == dir
    ensures ToSlug(dir + "/INDEX.MD") == dir
  {
    IndexStem(dir, dir + "/index.md", 3);
    IndexStem(dir, dir + "/index.mdx", 4);
    IndexStem(dir, dir + "/INDEX.MD", 3);
  }

  /** `dir/index` followed by an extension of length `n` strips back to `dir`. */
  lemma IndexStem(dir: string, fp: string, n: nat)
    requires n == MdExtLen(fp) && |fp| == |dir| + 6 + n
    requires fp[..|dir|] == dir && EndsWithSlashIndex(fp[..|dir| + 6])
    ensures ToSlug(fp) == dir
  {
    assert StripMdExt(fp) == fp[..|dir| + 6];
    assert fp[..|dir| + 6][..|dir|] == dir;
  }

  /** A root-level `index.md` keeps the slug `index`: `/index` needs a preceding slash. */
  lemma ToSlugRootIndex()
    ensures ToSlug("index.md") == "index"
    ensures ToSlug("index.mdx") == "index"
  {
  }

  /** A document not named `index` takes its extension-free path as slug. */
  lemma ToSlugPlainDocument(p: string)
    requires !EndsWithSlashIndex(p)
    ensures ToSlug(p + ".md") == p
    ensures ToSlug(p + ".mdx") == p
  {
  }

  /**
   * Only one extension and one `/index` are stripped, so a slug can still
   * end in an extension or in `/index`; and two files other than `d.md` and
   * `d/index.md` can share a slug.
   */
  lemma ToSlugStripsOnce()
    ensures ToSlug("a.md.md") == "a.md"
    ensures ToSlug("a/index/index.md") == "a/index"
    ensures ToSlug("a.md") == ToSlug("a.mdx") == ToSlug("a/INDEX.md") == "a"
  {
    ToSlugDoubleExtension();
    ToSlugDoubleIndex();
    ToSlugAliases("a", "a.md", "a.mdx", "a/INDEX.md");
  }

  lemma ToSlugAliases(a: string, md: string, mdx: string, upper: string)
    requires a == "a" && md == a + ".md" && mdx == a + ".mdx" && upper == a + "/INDEX.md"
    ensures ToSlug(md) == a && ToSlug(mdx) == a && ToSlug(upper) == a
  {
    ToSlugPlainDocument(a);
    IndexStem(a, upper, 3);
  }

  lemma ToSlugDoubleExtension()
    ensures ToSlug("a.md.md") == "a.md"
  {
    assert StripMdExt("a.md.md") == "a.md";
  }

  lemma ToSlugDoubleIndex()
    ensures ToSlug("a/index/index.md") == "a/index"
  {
    assert StripMdExt("a/index/index.md") == "a/index/index";
  }
}
