/**
 * Path handling of ExifRenamer.rb: `File.basename`, `File.dirname`,
 * `File.join` (through `ensureNewFileName`), the split of a basename at its
 * last `.` by `/(.*)\.(.*)/`, and `File.extname`.
 * Paths are strings whose components are separated by `/`.
 */
module Paths {
  import opened Wrappers
  import opened Text

  /** `File.basename`: the text after the last `/`. */
  function Basename(p: string): (r: string)
    ensures '/' !in r
    ensures |r| <= |p| && r == p[|p| - |r|..]
    ensures |r| < |p| ==> p[|p| - |r| - 1] == '/'
  {
    match LastIndexOf(p, '/')
    case None => p
    case Some(i) => p[i + 1..]
  }

  /** `File.dirname`: the text before the last `/`, `/` for a top-level
      entry and `.` for a bare name. */
  function Dirname(p: string): (r: string)
    ensures r != []
    ensures '/' !in p ==> r == "."
    ensures '/' in p ==> |r| <= |p| - |Basename(p)| && r == p[..|r|]
  {
    match LastIndexOf(p, '/')
    case None => "."
    case Some(i) => if i == 0 then "/" else p[..i]
  }

  /** `ensureNewFileName(dirname, fname)`, that is `File.join`: one `/`
      between the directory and the name, and no check for an existing file. */
  function Join(dir: string, name: string): (r: string)
    ensures |r| >= |dir| + |name| && dir <= r && r[|r| - |name|..] == name
    ensures '/' !in name ==> Basename(r) == name
  {
    var r := if |dir| > 0 && dir[|dir| - 1] == '/' then dir + name else dir + "/" + name;
    if '/' in name then r
    else
      LastIndexOfAt(r, '/', |r| - |name| - 1);
      r
  }

  /** Joining a path's directory with its basename gives back the path, as
      long as the path has a directory part without a doubled final `/`. */
  lemma JoinDirnameBasename(p: string, i: nat)
    requires LastIndexOf(p, '/') == Some(i) && i > 0 && p[i - 1] != '/'
    ensures Join(Dirname(p), Basename(p)) == p
  {
    var d, b := p[..i], p[i + 1..];
    SplitAround(p, i);
    assert p == d + "/" + b by {
      assert [p[i]] == "/";
    }
    assert Dirname(p) == d;
    assert Basename(p) == b;
    JoinAddsSlash(d, b);
  }

  /** The same for an entry of the root directory. */
  lemma JoinRootBasename(p: string)
    requires LastIndexOf(p, '/') == Some(0)
    ensures Join(Dirname(p), Basename(p)) == p
  {
    var b := p[1..];
    assert Dirname(p) == "/" && Basename(p) == b;
    JoinAfterSlash("/", b);
    SplitAround(p, 0);
    assert [p[0]] == "/" && p[..0] == [];
  }

  /** The joined path lies in the directory it was joined to, unless that
      directory ends in a `/` other than the root. */
  lemma DirnameJoin(dir: string, name: string)
    requires '/' !in name
    requires dir == "/" || (dir != [] && dir[|dir| - 1] != '/')
    ensures Dirname(Join(dir, name)) == dir
  {
    var r := Join(dir, name);
    if dir == "/" {
      JoinAfterSlash(dir, name);
      assert r[0] == '/' && '/' !in r[1..] by { assert r[1..] == name; }
      LastIndexOfAt(r, '/', 0);
    } else {
      JoinAddsSlash(dir, name);
      assert r[|dir|] == '/' && r[|dir| + 1..] == name && r[..|dir|] == dir;
      LastIndexOfAt(r, '/', |dir|);
    }
  }

  lemma SplitAround(s: string, i: nat)
    requires i < |s|
    ensures s == s[..i] + [s[i]] + s[i + 1..]
  {
    assert s == s[..i] + s[i..];
  }

  lemma JoinAfterSlash(dir: string, name: string)
    requires |dir| > 0 && dir[|dir| - 1] == '/'
    ensures Join(dir, name) == dir + name
  {
  }

  lemma JoinAddsSlash(dir: string, name: string)
    requires |dir| > 0 && dir[|dir| - 1] != '/'
    ensures Join(dir, name) == dir + "/" + name
  {
  }

  /** `basename.match(/(.*)\.(.*)/)`: the text before and after the last `.`,
      or None when the basename has no `.` at all. */
  function SplitStem(base: string): (r: Option<(string, string)>)
    ensures r.None? <==> '.' !in base
    ensures r.Some? ==> base == r.value.0 + "." + r.value.1 && '.' !in r.value.1
  {
    match LastIndexOf(base, '.')
    case None => None
    case Some(i) =>
      assert base == base[..i] + "." + base[i + 1..];
      Some((base[..i], base[i + 1..]))
  }

  /** The split is unique: whatever follows a `.` without containing one is
      the suffix, and whatever precedes it is the stem. */
  lemma {:induction false} SplitStemAt(stem: string, suffix: string)
    requires '.' !in suffix
    ensures SplitStem(stem + "." + suffix) == Some((stem, suffix))
  {
    var base := stem + "." + suffix;
    assert base[|stem| + 1..] == suffix;
    LastIndexOfAt(base, '.', |stem|);
    assert base[..|stem|] == stem;
  }

  /** `baseDate` of the generic branch: the stem, `nil` without a `.`. */
  function Stem(base: string): (r: Option<string>)
    ensures r.None? <==> '.' !in base
    ensures r.Some? ==> r.value + "." <= base && '.' !in base[|r.value| + 1..]
  {
    match SplitStem(base)
    case None => None
    case Some(parts) =>
      assert base[|parts.0| + 1..] == parts.1;
      Some(parts.0)
  }

  /** `File.extname`: from the last `.` on, unless that `.` is the first
      character; empty when there is no `.`. */
  function ExtName(base: string): (r: string)
    ensures r == [] <==> SplitStem(base).None? || SplitStem(base).value.0 == []
    ensures r != [] ==> r == "." + SplitStem(base).value.1
  {
    match LastIndexOf(base, '.')
    case None => ""
    case Some(i) => if i == 0 then "" else base[i..]
  }
}
