/**
 * String helpers for the handful of fixed patterns the content-addressing
 * code matches with regular expressions, and for splitting and joining
 * slash-separated paths.
 *
 * A JavaScript regular expression with the `i` flag (and no `u` flag) folds
 * case only between ASCII letters, so case-insensitive matching here is
 * ASCII lower-casing of the subject compared with a lower-case pattern.
 */
module Text {

  /** ASCII lower-casing, the only case folding a non-Unicode `/i` regex does. */
  function Lower(c: char): char {
    if 'A' <= c <= 'Z' then (c as int + 32) as char else c
  }

  predicate StartsWith(s: string, p: string) {
    |p| <= |s| && s[..|p|] == p
  }

  predicate EndsWith(s: string, p: string) {
    |p| <= |s| && s[|s| - |p|..] == p
  }

  /** `s` matches `/\.md$/i`. */
  predicate EndsWithMd(s: string) {
    |s| >= 3 && s[|s| - 3] == '.' && Lower(s[|s| - 2]) == 'm' && Lower(s[|s| - 1]) == 'd'
  }

  /** `s` matches `/\.mdx$/i`. */
  predicate EndsWithMdx(s: string) {
    |s| >= 4 && s[|s| - 4] == '.' && Lower(s[|s| - 3]) == 'm' && Lower(s[|s| - 2]) == 'd'
    && Lower(s[|s| - 1]) == 'x'
  }

  /**
   * Length of the suffix `/\.(md|mdx)$/i` matches in `s`, 0 when it does not
   * match. At most one of the two alternatives can match at the end of `s`.
   */
  function MdExtLen(s: string): (n: nat)
    ensures n == 0 || n == 3 || n == 4
    ensures n <= |s|
  {
    if EndsWithMdx(s) then 4 else if EndsWithMd(s) then 3 else 0
  }

  predicate HasMdExt(s: string) {
    MdExtLen(s) > 0
  }

  /** `s.replace(/\.(md|mdx)$/i, "")`. */
  function StripMdExt(s: string): (r: string)
    ensures |r| <= |s| && r == s[..|r|]
  {
    s[..|s| - MdExtLen(s)]
  }

  /** `s` matches `/\/index$/i`. */
  predicate EndsWithSlashIndex(s: string) {
    |s| >= 6 && s[|s| - 6] == '/' && Lower(s[|s| - 5]) == 'i' && Lower(s[|s| - 4]) == 'n'
    && Lower(s[|s| - 3]) == 'd' && Lower(s[|s| - 2]) == 'e' && Lower(s[|s| - 1]) == 'x'
  }

  /** `s.replace(/\/index$/i, "")`. */
  function StripSlashIndex(s: string): (r: string)
    ensures |r| <= |s| && r == s[..|r|]
  {
    if EndsWithSlashIndex(s) then s[..|s| - 6] else s
  }

  /** `s.replace(/^\.\//, "")`. */
  function StripDotSlash(s: string): (r: string)
    ensures |r| <= |s| && r == s[|s| - |r|..]
  {
    if StartsWith(s, "./") then s[2..] else s
  }

  /** `s` matches `/^index\.(md|mdx)$/i`. */
  predicate IsIndexFileName(s: string) {
    (|s| == 8 || |s| == 9) && Lower(s[0]) == 'i' && Lower(s[1]) == 'n' && Lower(s[2]) == 'd'
    && Lower(s[3]) == 'e' && Lower(s[4]) == 'x' && MdExtLen(s) == |s| - 5
  }

  /** `s.replace(/\\/g, "/")`: every backslash becomes a forward slash. */
  function ReplaceBackslashes(s: string): (r: string)
    ensures |r| == |s| && '\\' !in r
    ensures forall i :: 0 <= i < |s| && s[i] != '\\' ==> r[i] == s[i]
    ensures forall i :: 0 <= i < |s| && s[i] == '\\' ==> r[i] == '/'
  {
    seq(|s|, i requires 0 <= i < |s| => if s[i] == '\\' then '/' else s[i])
  }

  lemma ReplaceBackslashesNoop(s: string)
    requires '\\' !in s
    ensures ReplaceBackslashes(s) == s
  {
  }

  /** Position of the first `/` in `s`. */
  function FirstSlash(s: string): (i: nat)
    requires '/' in s
    ensures i < |s| && s[i] == '/' && '/' !in s[..i]
  {
    if s[0] == '/' then 0
    else
      assert s == [s[0]] + s[1..];
      var j := FirstSlash(s[1..]);
      assert s[..j + 1] == [s[0]] + s[1..][..j];
      1 + j
  }

  lemma FirstSlashAt(a: string, t: string)
    requires '/' !in a
    ensures FirstSlash(a + "/" + t) == |a|
  {
    var s := a + "/" + t;
    var i := FirstSlash(s);
    assert s[..|a|] == a && s[|a|] == '/';
  }

  /** `s.split("/")`: the pieces between slashes, at least one, possibly empty. */
  function Split(s: string): (parts: seq<string>)
    ensures |parts| >= 1
    ensures forall p :: p in parts ==> '/' !in p
    decreases |s|
  {
    if '/' in s then
      var i := FirstSlash(s);
      [s[..i]] + Split(s[i + 1..])
    else [s]
  }

  /** `xs.join("/")`. */
  function Join(xs: seq<string>): string {
    if |xs| == 0 then ""
    else if |xs| == 1 then xs[0]
    else xs[0] + "/" + Join(xs[1..])
  }

  lemma {:induction false} JoinSplit(s: string)
    ensures Join(Split(s)) == s
    decreases |s|
  {
    if '/' in s {
      var i := FirstSlash(s);
      JoinSplit(s[i + 1..]);
      assert s == s[..i] + "/" + s[i + 1..];
    }
  }

  lemma {:induction false} SplitJoin(xs: seq<string>)
    requires |xs| >= 1
    requires forall x :: x in xs ==> '/' !in x
    ensures Split(Join(xs)) == xs
  {
    if |xs| > 1 {
      var t := Join(xs[1..]);
      FirstSlashAt(xs[0], t);
      var s := xs[0] + "/" + t;
      assert s[..|xs[0]|] == xs[0];
      assert s[|xs[0]| + 1..] == t;
      SplitJoin(xs[1..]);
      assert xs == [xs[0]] + xs[1..];
    }
  }

  lemma {:induction false} JoinSnoc(xs: seq<string>, y: string)
    requires |xs| >= 1
    ensures Join(xs + [y]) == Join(xs) + "/" + y
  {
    if |xs| > 1 {
      assert (xs + [y])[1..] == xs[1..] + [y];
      JoinSnoc(xs[1..], y);
    } else {
      assert (xs + [y])[1..] == [y];
    }
  }

  /** A slash-free path is a single segment. */
  lemma SplitSegment(a: string)
    requires '/' !in a
    ensures Split(a) == [a]
  {
  }

  /** A path of two slash-free segments splits into those segments. */
  lemma SplitSegments(a: string, b: string)
    requires '/' !in a && '/' !in b
    ensures Split(a + "/" + b) == [a, b]
  {
    assert Join([a, b]) == a + "/" + b;
    SplitJoin([a, b]);
  }

  /**
   * Joining is one-to-one on non-empty lists of slash-free segments; on
   * arbitrary lists it is not (`["a/b"]` and `["a", "b"]` join alike).
   */
  lemma JoinInjective(xs: seq<string>, ys: seq<string>)
    requires |xs| >= 1 && |ys| >= 1
    requires forall x :: x in xs ==> '/' !in x
    requires forall y :: y in ys ==> '/' !in y
    ensures Join(xs) == Join(ys) <==> xs == ys
  {
    if Join(xs) == Join(ys) {
      SplitJoin(xs);
      SplitJoin(ys);
    }
  }
}
