/** Module resolution of `Modules.load` (lib/modules.js): a specifier and the directory of
  * the requiring module become the first readable file of an ordered list of probes,
  * following Node's "all together" algorithm. Where the source throws the found module
  * to stop probing, the model evaluates the probe list to its first hit. */
module Resolver {
  import opened Wrappers
  import opened Text
  import opened Paths

  /** What the resolver can observe of the disk. `files` maps each readable file to its
    * content; a path missing from it is a failed read, whatever the cause.
    * `manifestMain` maps the path of a `package.json` that reads, parses and defines
    * `main` to that string; every other `package.json` is absent from it. */
  datatype FileSystem = FileSystem(files: map<string, string>, manifestMain: map<string, string>)

  /** `loadAsFile(p)`: the exact path, then `.js`, `.json` and `.node` appended. */
  function FileProbes(p: string): seq<string>
  {
    [p, p + ".js", p + ".json", p + ".node"]
  }

  /** `loadAsDirectory(p)`: the manifest's `main` probed as a file when it is defined,
    * then `index.js`, `index.json` and `index.node`. */
  function DirProbes(fs: FileSystem, p: string): seq<string>
  {
    var manifest := Join(p, "package.json");
    (if manifest in fs.manifestMain then FileProbes(Join(p, fs.manifestMain[manifest])) else [])
    + [Join(p, "index.js"), Join(p, "index.json"), Join(p, "index.node")]
  }

  /** One candidate base path: first as a file, then as a directory. */
  function Probes(fs: FileSystem, p: string): seq<string>
  {
    FileProbes(p) + DirProbes(fs, p)
  }

  /** The base probed before any `node_modules` directory: `./` and `../` specifiers
    * joined to `cwd`, absolute specifiers as they are, none for a bare specifier. */
  function LocalBase(spec: string, cwd: string): Option<string>
  {
    if StartsWith(spec, "./") || StartsWith(spec, "../") then Some(Join(cwd, spec))
    else if IsAbsolute(spec) then Some(spec)
    else None
  }

  function LocalProbes(fs: FileSystem, spec: string, cwd: string): seq<string>
  {
    match LocalBase(spec, cwd)
    case Some(b) => Probes(fs, b)
    case None => []
  }

  /** The probes of `spec` inside each `node_modules` directory, in the order given. */
  function ModulesProbes(fs: FileSystem, spec: string, dirs: seq<string>): seq<string>
    decreases |dirs|
  {
    if dirs == [] then [] else Probes(fs, Join(dirs[0], spec)) + ModulesProbes(fs, spec, dirs[1..])
  }

  /** Every probe `Modules.load` may try for `spec` from `cwd`, in order. */
  function Candidates(fs: FileSystem, spec: string, cwd: string): seq<string>
  {
    LocalProbes(fs, spec, cwd) + ModulesProbes(fs, spec, NodeModulesDirs(cwd))
  }

  /** The index of the first readable candidate, or `|cands|` when none reads. */
  function FirstHitIndex(files: map<string, string>, cands: seq<string>): (i: nat)
    ensures i <= |cands|
    ensures i < |cands| ==> cands[i] in files
    ensures forall j :: 0 <= j < i ==> cands[j] !in files
  {
    if cands == [] then 0
    else if cands[0] in files then 0
    else 1 + FirstHitIndex(files, cands[1..])
  }

  function FirstHit(files: map<string, string>, cands: seq<string>): (r: Option<string>)
  {
    var i := FirstHitIndex(files, cands);
    if i < |cands| then Some(cands[i]) else None
  }

  /** The path `Modules.load` settles on, if any. */
  function Resolve(fs: FileSystem, spec: string, cwd: string): (r: Option<string>)
    ensures r.Some? ==> r.value in fs.files
  {
    FirstHit(fs.files, Candidates(fs, spec, cwd))
  }

  /** The names the source lists as Node.js core modules, for the not-found message only. */
  const CoreModules: seq<string> := [
    "assert", "buffer", "child_process", "cluster", "console", "crypto", "dns", "domain",
    "events", "fs", "http", "https", "net", "os", "path", "punycode", "readline", "repl",
    "stream", "string_decoder", "tls", "dgram", "url", "util", "v8", "vm", "zlib"]

  /** The message of the error thrown when no probe reads: it always starts with
    * `<spec> module not found`, and carries more exactly when `spec` is a core name. */
  function NotFoundMessage(spec: string): (r: string)
    ensures StartsWith(r, spec + " module not found")
    ensures spec in CoreModules <==> r != spec + " module not found"
    ensures spec in CoreModules ==> r == spec + " module not found (" + spec + " is Node.js core module)"
  {
    NotFoundText(spec, spec in CoreModules)
  }

  function NotFoundText(spec: string, core: bool): (r: string)
    ensures StartsWith(r, spec + " module not found")
    ensures core <==> r != spec + " module not found"
    ensures core ==> r == spec + " module not found (" + spec + " is Node.js core module)"
  {
    var notFound := spec + " module not found";
    if core then
      assert (notFound + " (" + spec + " is Node.js core module)")[..|notFound|] == notFound;
      notFound + " (" + spec + " is Node.js core module)"
    else notFound
  }

  /** The three conditions `FirstHitIndex` promises pin it down. */
  lemma FirstHitIndexUnique(files: map<string, string>, cands: seq<string>, i: nat)
    requires i <= |cands|
    requires i < |cands| ==> cands[i] in files
    requires forall j :: 0 <= j < i ==> cands[j] !in files
    ensures FirstHitIndex(files, cands) == i
  {
  }

  /** Probing `a` then `b` hits in `a` when `a` has a readable candidate, else in `b`. */
  lemma FirstHitAppend(files: map<string, string>, a: seq<string>, b: seq<string>)
    ensures FirstHit(files, a + b) == if FirstHit(files, a).Some? then FirstHit(files, a) else FirstHit(files, b)
  {
    var i := FirstHitIndex(files, a);
    if i < |a| {
      FirstHitIndexUnique(files, a + b, i);
    } else {
      var k := FirstHitIndex(files, b);
      assert forall j :: 0 <= j < |a| ==> (a + b)[j] == a[j];
      assert forall j :: 0 <= j < k ==> (a + b)[|a| + j] == b[j];
      FirstHitIndexUnique(files, a + b, |a| + k);
    }
  }

  /** A readable candidate in the list means a hit, and the hit is readable. */
  lemma FirstHitFindsReadable(files: map<string, string>, cands: seq<string>, i: nat)
    requires i < |cands| && cands[i] in files
    ensures FirstHit(files, cands).Some?
    ensures FirstHit(files, cands).value in files
    ensures FirstHit(files, cands).value in cands[..i + 1]
  {
    var r := FirstHitIndex(files, cands);
    assert r <= i;
    assert cands[r] == cands[..i + 1][r];
  }

  /** Search order, first half: when a `./`, `../` or absolute specifier has a readable
    * probe of its own, that probe wins and no `node_modules` directory is consulted. */
  lemma LocalProbesFirst(fs: FileSystem, spec: string, cwd: string)
    ensures FirstHit(fs.files, LocalProbes(fs, spec, cwd)).Some? ==>
      Resolve(fs, spec, cwd) == FirstHit(fs.files, LocalProbes(fs, spec, cwd))
    ensures FirstHit(fs.files, LocalProbes(fs, spec, cwd)).None? ==>
      Resolve(fs, spec, cwd) == FirstHit(fs.files, ModulesProbes(fs, spec, NodeModulesDirs(cwd)))
  {
    FirstHitAppend(fs.files, LocalProbes(fs, spec, cwd), ModulesProbes(fs, spec, NodeModulesDirs(cwd)));
  }

  /** Within one base path, the file probes come before the directory probes. */
  lemma FileBeforeDirectory(fs: FileSystem, p: string)
    ensures FirstHit(fs.files, Probes(fs, p)) ==
      if FirstHit(fs.files, FileProbes(p)).Some? then FirstHit(fs.files, FileProbes(p))
      else FirstHit(fs.files, DirProbes(fs, p))
  {
    FirstHitAppend(fs.files, FileProbes(p), DirProbes(fs, p));
  }

  /** Extension order of a local specifier: the `k`-th of the exact path, `.js`, `.json`
    * and `.node` is the result when it reads and the ones before it do not. */
  lemma LocalFileWins(fs: FileSystem, spec: string, cwd: string, k: nat)
    requires LocalBase(spec, cwd).Some? && k < 4
    requires FileProbes(LocalBase(spec, cwd).value)[k] in fs.files
    requires forall j :: 0 <= j < k ==> FileProbes(LocalBase(spec, cwd).value)[j] !in fs.files
    ensures Resolve(fs, spec, cwd) == Some(FileProbes(LocalBase(spec, cwd).value)[k])
  {
    var b := LocalBase(spec, cwd).value;
    FirstHitIndexUnique(fs.files, FileProbes(b), k);
    FileBeforeDirectory(fs, b);
    LocalProbesFirst(fs, spec, cwd);
  }

  /** The probe groups of `dirs`, one per directory, joined in order. */
  function Flatten(groups: seq<seq<string>>): seq<string>
  {
    if groups == [] then [] else groups[0] + Flatten(groups[1..])
  }

  /** The probe group of each `node_modules` directory. */
  function DirGroups(fs: FileSystem, spec: string, dirs: seq<string>): (r: seq<seq<string>>)
    ensures |r| == |dirs| && forall j :: 0 <= j < |dirs| ==> r[j] == Probes(fs, Join(dirs[j], spec))
  {
    seq(|dirs|, j requires 0 <= j < |dirs| => Probes(fs, Join(dirs[j], spec)))
  }

  lemma {:induction false} ModulesProbesGroups(fs: FileSystem, spec: string, dirs: seq<string>)
    ensures ModulesProbes(fs, spec, dirs) == Flatten(DirGroups(fs, spec, dirs))
    decreases |dirs|
  {
    if dirs != [] {
      ModulesProbesGroups(fs, spec, dirs[1..]);
      assert DirGroups(fs, spec, dirs)[1..] == DirGroups(fs, spec, dirs[1..]);
    }
  }

  /** In a sequence of probe groups, the first group with a readable probe decides. */
  lemma {:induction false} FirstHitInGroup(files: map<string, string>, groups: seq<seq<string>>, k: nat)
    requires k < |groups|
    requires forall j :: 0 <= j < k ==> FirstHit(files, groups[j]).None?
    requires FirstHit(files, groups[k]).Some?
    ensures FirstHit(files, Flatten(groups)) == FirstHit(files, groups[k])
  {
    FirstHitAppend(files, groups[0], Flatten(groups[1..]));
    if k > 0 {
      FirstHitInGroup(files, groups[1..], k - 1);
    }
  }

  /** Search order, second half: the nearest `node_modules` directory with a readable
    * probe wins over every directory further out. */
  lemma NearestModulesDirWins(fs: FileSystem, spec: string, dirs: seq<string>, k: nat)
    requires k < |dirs|
    requires forall j :: 0 <= j < k ==> FirstHit(fs.files, Probes(fs, Join(dirs[j], spec))).None?
    requires FirstHit(fs.files, Probes(fs, Join(dirs[k], spec))).Some?
    ensures FirstHit(fs.files, ModulesProbes(fs, spec, dirs)) == FirstHit(fs.files, Probes(fs, Join(dirs[k], spec)))
  {
    ModulesProbesGroups(fs, spec, dirs);
    FirstHitInGroup(fs.files, DirGroups(fs, spec, dirs), k);
  }

  /** When every probe misses, resolution fails, and it fails only then. */
  lemma ResolveFailsExactlyWhenAllMiss(fs: FileSystem, spec: string, cwd: string)
    ensures Resolve(fs, spec, cwd).None? <==>
      forall j :: 0 <= j < |Candidates(fs, spec, cwd)| ==> Candidates(fs, spec, cwd)[j] !in fs.files
  {
    var c := Candidates(fs, spec, cwd);
    if Resolve(fs, spec, cwd).Some? {
      var i := FirstHitIndex(fs.files, c);
      assert c[i] in fs.files;
    }
  }
}
