/** The parts of Node's POSIX `path` module the bundler relies on (`Path.sep` is `/`):
  * `isAbsolute`, `normalize`, `join`, `parse`, and the `node_modules` ancestor
  * list of lib/modules.js. */
module Paths {
  import opened Text

  const NodeModules: string := "node_modules"

  predicate IsAbsolute(p: string)
  {
    |p| > 0 && p[0] == '/'
  }

  /** Folds path segments left to right: empty and `.` segments vanish, `..` drops
    * the previous real segment, or is kept when the path may climb above its start. */
  function ResolveSegments(segs: seq<string>, allowAbove: bool, acc: seq<string>): seq<string>
    decreases |segs|
  {
    if segs == [] then acc
    else
      var s := segs[0];
      if s == "" || s == "." then ResolveSegments(segs[1..], allowAbove, acc)
      else if s == ".." then
        if |acc| > 0 && acc[|acc| - 1] != ".." then ResolveSegments(segs[1..], allowAbove, acc[..|acc| - 1])
        else if allowAbove then ResolveSegments(segs[1..], allowAbove, acc + [".."])
        else ResolveSegments(segs[1..], allowAbove, acc)
      else ResolveSegments(segs[1..], allowAbove, acc + [s])
  }

  /** `path.normalize(p)`: an absolute path stays absolute, a trailing separator is kept. */
  function Normalize(p: string): (r: string)
    ensures IsAbsolute(p) ==> IsAbsolute(r)
    ensures |r| > 0
  {
    if p == "" then "."
    else
      var abs := p[0] == '/';
      var trailing := p[|p| - 1] == '/';
      var body := JoinWith(ResolveSegments(Split(p, '/'), !abs, []), "/");
      if body == "" then (if abs then "/" else if trailing then "./" else ".")
      else
        var b := if trailing then body + "/" else body;
        if abs then "/" + b else b
  }

  /** `path.join(a, b)`: the non-empty arguments joined by `/`, then normalised. */
  function Join(a: string, b: string): (r: string)
    ensures IsAbsolute(a) ==> IsAbsolute(r)
  {
    var joined := if a == "" then b else if b == "" then a else a + "/" + b;
    assert IsAbsolute(a) ==> IsAbsolute(joined);
    if joined == "" then "." else Normalize(joined)
  }

  /** Position of the last `c` in `s`, or -1. */
  function LastIndexOf(s: string, c: char): (r: int)
    ensures -1 <= r < |s|
    ensures r >= 0 ==> s[r] == c
    ensures forall k :: r < k < |s| ==> s[k] != c
  {
    if s == [] then -1
    else if s[|s| - 1] == c then |s| - 1
    else LastIndexOf(s[..|s| - 1], c)
  }

  /** The `dir`, `name` and `ext` fields of `path.parse`. */
  datatype ParsedPath = ParsedPath(dir: string, name: string, ext: string)

  /** Splits a base name at its last `.`, unless that `.` is its first character. */
  function SplitExt(base: string): (r: (string, string))
    ensures r.0 + r.1 == base
    ensures r.1 == "" || r.1[0] == '.'
  {
    var dot := LastIndexOf(base, '.');
    if dot > 0 then
      assert base[..dot] + base[dot..] == base;
      (base[..dot], base[dot..])
    else
      assert base + "" == base;
      (base, "")
  }

  /** `path.parse(p)` for a path that does not end in `/`: the base name follows the last
    * `/`, and the extension runs from the base name's last `.` unless that `.` starts it. */
  function Parse(p: string): (r: ParsedPath)
    ensures r.ext == "" || r.ext[0] == '.'
  {
    var slash := LastIndexOf(p, '/');
    var ne := SplitExt(p[slash + 1..]);
    ParsedPath(if slash < 0 then "" else if slash == 0 then "/" else p[..slash], ne.0, ne.1)
  }

  lemma BaseHasNoSlash(p: string)
    ensures '/' !in p[LastIndexOf(p, '/') + 1..]
  {
    var slash := LastIndexOf(p, '/');
    var base := p[slash + 1..];
    forall k | 0 <= k < |base| ensures base[k] != '/' {
      assert base[k] == p[slash + 1 + k];
    }
  }

  lemma NotInParts(a: string, b: string, c: char)
    requires c !in a + b
    ensures c !in a && c !in b
  {
    assert forall k :: 0 <= k < |a| ==> a[k] == (a + b)[k];
    assert forall k :: 0 <= k < |b| ==> b[k] == (a + b)[|a| + k];
  }

  lemma CutAt(p: string, i: nat)
    requires i < |p| && p[i] == '/'
    ensures p == p[..i] + "/" + p[i + 1..]
  {
    assert p == p[..i] + [p[i]] + p[i + 1..];
  }

  lemma Assoc(a: string, b: string, c: string)
    ensures a + "/" + b + c == a + "/" + (b + c)
  {
  }

  lemma CutFirst(p: string)
    requires |p| > 0 && p[0] == '/'
    ensures p == "/" + p[1..]
  {
    assert p == [p[0]] + p[1..];
  }

  lemma AssocRoot(b: string, c: string)
    ensures "/" + b + c == "/" + (b + c)
  {
  }

  /** `Parse` loses nothing: directory, `/`, name and extension put back together give
    * the path, and neither the name nor the extension holds a `/`. */
  lemma ParseRoundTrip(p: string)
    ensures '/' !in Parse(p).name && '/' !in Parse(p).ext
    ensures LastIndexOf(p, '/') > 0 ==> Parse(p).dir + "/" + Parse(p).name + Parse(p).ext == p
    ensures LastIndexOf(p, '/') == 0 ==> Parse(p).dir == "/" && "/" + Parse(p).name + Parse(p).ext == p
    ensures LastIndexOf(p, '/') < 0 ==> Parse(p).dir == "" && Parse(p).name + Parse(p).ext == p
  {
    var slash := LastIndexOf(p, '/');
    var r := Parse(p);
    BaseHasNoSlash(p);
    NotInParts(r.name, r.ext, '/');
    if slash > 0 {
      CutAt(p, slash);
      Assoc(r.dir, r.name, r.ext);
    } else if slash == 0 {
      CutFirst(p);
      AssocRoot(r.name, r.ext);
    }
  }

  /** The prefix lengths `i` of the `cwd` segments that `nodeModulesPaths` visits:
    * from the longest down, skipping those whose last segment is `node_modules`. */
  function AncestorLengths(parts: seq<string>, i: nat): (r: seq<nat>)
    requires i <= |parts|
    ensures forall k :: 0 <= k < |r| ==> 1 <= r[k] <= i && parts[r[k] - 1] != NodeModules
    ensures forall k, l :: 0 <= k < l < |r| ==> r[k] > r[l]
    ensures forall j :: 1 <= j <= i && parts[j - 1] != NodeModules ==> j in r
  {
    if i == 0 then []
    else if parts[i - 1] == NodeModules then AncestorLengths(parts, i - 1)
    else [i] + AncestorLengths(parts, i - 1)
  }

  /** `parts.slice(0, j).concat('node_modules').join(Path.sep)`. */
  function ModulesDir(parts: seq<string>, j: nat): string
    requires j <= |parts|
  {
    JoinWith(parts[..j] + [NodeModules], "/")
  }

  /** The directories `nodeModulesPaths` pushes for prefix lengths `i` down to 1. */
  function ModulesDirsFrom(parts: seq<string>, i: nat): seq<string>
    requires i <= |parts|
  {
    if i == 0 then []
    else if parts[i - 1] == NodeModules then ModulesDirsFrom(parts, i - 1)
    else [ModulesDir(parts, i)] + ModulesDirsFrom(parts, i - 1)
  }

  /** The list `nodeModulesPaths(cwd)` returns. */
  function NodeModulesDirs(cwd: string): seq<string>
  {
    var parts := Split(cwd, '/');
    ModulesDirsFrom(parts, |parts|)
  }

  /** `nodeModulesPaths(cwd)`: a decrementing loop over the prefixes of the `cwd` segments. */
  method NodeModulesPaths(cwd: string) returns (dirs: seq<string>)
    ensures dirs == NodeModulesDirs(cwd)
  {
    var parts := Split(cwd, '/');
    dirs := [];
    var i := |parts|;
    while i > 0
      invariant 0 <= i <= |parts|
      invariant dirs + ModulesDirsFrom(parts, i) == ModulesDirsFrom(parts, |parts|)
    {
      if parts[i - 1] != NodeModules {
        dirs := dirs + [ModulesDir(parts, i)];
      }
      i := i - 1;
    }
  }

  lemma {:induction false} JoinWithSnoc(xs: seq<string>, y: string, sep: string)
    requires |xs| >= 1
    ensures JoinWith(xs + [y], sep) == JoinWith(xs, sep) + sep + y
  {
    if |xs| > 1 {
      assert (xs + [y])[1..] == xs[1..] + [y];
      JoinWithSnoc(xs[1..], y, sep);
    }
  }

  /** `d` is the directory made of the first `j` segments, followed by `/node_modules`. */
  predicate AncestorDir(d: string, parts: seq<string>, j: nat)
    requires j <= |parts|
  {
    d == JoinWith(parts[..j], "/") + "/" + NodeModules && EndsWith(d, "/" + NodeModules)
  }

  lemma ModulesDirShape(parts: seq<string>, j: nat)
    requires 1 <= j <= |parts|
    ensures AncestorDir(ModulesDir(parts, j), parts, j)
  {
    JoinWithSnoc(parts[..j], NodeModules, "/");
    var s := JoinWith(parts[..j], "/") + "/" + NodeModules;
    assert s[|s| - |"/" + NodeModules|..] == "/" + NodeModules;
  }

  /** The `node_modules` list follows the ancestors nearest first: entry `k` is the
    * ancestor given by the `k`-th of the strictly decreasing `AncestorLengths`, followed
    * by `/node_modules`. */
  lemma {:induction false} ModulesDirsAreAncestors(parts: seq<string>, i: nat)
    requires i <= |parts|
    ensures |ModulesDirsFrom(parts, i)| == |AncestorLengths(parts, i)|
    ensures forall k :: 0 <= k < |ModulesDirsFrom(parts, i)| ==>
      AncestorDir(ModulesDirsFrom(parts, i)[k], parts, AncestorLengths(parts, i)[k])
  {
    if i > 0 {
      ModulesDirsAreAncestors(parts, i - 1);
      if parts[i - 1] != NodeModules {
        var dirs, lens := ModulesDirsFrom(parts, i - 1), AncestorLengths(parts, i - 1);
        assert ModulesDirsFrom(parts, i) == [ModulesDir(parts, i)] + dirs;
        assert AncestorLengths(parts, i) == [i] + lens;
        ModulesDirShape(parts, i);
        forall k | 0 <= k < |ModulesDirsFrom(parts, i)|
          ensures AncestorDir(ModulesDirsFrom(parts, i)[k], parts, AncestorLengths(parts, i)[k])
        {
          if k > 0 {
            assert ModulesDirsFrom(parts, i)[k] == dirs[k - 1];
            assert AncestorLengths(parts, i)[k] == lens[k - 1];
          }
        }
      }
    }
  }
}
