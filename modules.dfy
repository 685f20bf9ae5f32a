/** The module graph of lib/modules.js: `Module` records whose content `parse` rewrites,
  * and the `Modules` registry whose `load` resolves a specifier, deduplicates by path,
  * allocates an id, records the main module and parses each new module after storing it. */
module ModuleGraph {
  import opened Wrappers
  import opened Text
  import Paths
  import opened Resolver
  import opened Content

  /** `cwd || (cwd = '/')`: an empty directory means the root. */
  function EffectiveCwd(cwd: string): (r: string)
    ensures cwd == "" ==> r == "/"
    ensures cwd != "" ==> r == cwd
  {
    if cwd == "" then "/" else cwd
  }

  /** The name a readable id is built from: the file's base name when the specifier holds a
    * separator, the specifier itself otherwise. */
  function IdBase(spec: string, path: string): string
  {
    if '/' in spec then Paths.Parse(path).name else spec
  }

  /** The `n`-th readable id tried for `base`: `base`, then `base2`, `base3`, ... */
  function Candidate(base: string, n: nat): string
  {
    if n <= 1 then base else base + Decimal(n)
  }

  lemma CandidateInjective(base: string, a: nat, b: nat)
    requires 1 <= a && 1 <= b
    ensures Candidate(base, a) == Candidate(base, b) ==> a == b
  {
    if a >= 2 && b >= 2 && Candidate(base, a) == Candidate(base, b) {
      assert Decimal(a) == Candidate(base, a)[|base|..];
      assert Decimal(b) == Candidate(base, b)[|base|..];
      RadixInjective(a, b, 10);
    }
  }

  /** The first `n` candidates for `base`. */
  function CandidateSet(base: string, n: nat): set<string>
  {
    if n == 0 then {} else CandidateSet(base, n - 1) + {Candidate(base, n)}
  }

  /** Every member of `CandidateSet(base, n)` is one of the first `n` candidates. */
  lemma {:induction false} CandidateSetMembers(base: string, n: nat)
    ensures forall c :: c in CandidateSet(base, n) ==> exists m :: 1 <= m <= n && c == Candidate(base, m)
  {
    if n > 0 {
      CandidateSetMembers(base, n - 1);
    }
  }

  /** The first `n` candidates are pairwise distinct. */
  lemma {:induction false} CandidateSetSize(base: string, n: nat)
    ensures |CandidateSet(base, n)| == n
  {
    if n > 0 {
      CandidateSetSize(base, n - 1);
      CandidateSetMembers(base, n - 1);
      var prev, c := CandidateSet(base, n - 1), Candidate(base, n);
      assert c !in prev by {
        if c in prev {
          var m :| 1 <= m <= n - 1 && c == Candidate(base, m);
          CandidateInjective(base, m, n);
        }
      }
      assert CandidateSet(base, n) == prev + {c};
    }
  }

  /** While the name loop runs, the candidates it has rejected are keys of `items`, so it
    * cannot reject more candidates than there are keys. */
  lemma CandidatesBounded(base: string, n: nat, keys: set<string>)
    requires forall m :: 1 <= m <= n ==> Candidate(base, m) in keys
    ensures n <= |keys|
  {
    CandidateSetSize(base, n);
    CandidateSetMembers(base, n);
    assert CandidateSet(base, n) <= keys by {
      forall c | c in CandidateSet(base, n) ensures c in keys {
        var m :| 1 <= m <= n && c == Candidate(base, m);
      }
    }
    var s := CandidateSet(base, n);
    assert keys == (keys - s) + s;
    assert (keys - s) * s == {};
  }

  /** The number of the first candidate from the `n`-th on that is not in `keys`. */
  function FirstFreeIndex(base: string, keys: set<string>, n: nat): (k: nat)
    requires 1 <= n && forall m :: 1 <= m < n ==> Candidate(base, m) in keys
    ensures n <= k && Candidate(base, k) !in keys
    ensures forall m :: 1 <= m < k ==> Candidate(base, m) in keys
    decreases |keys| + 1 - n
  {
    if Candidate(base, n) !in keys then n
    else
      CandidatesBounded(base, n, keys);
      FirstFreeIndex(base, keys, n + 1)
  }

  /** The id `load` gives a new module registered over `keys`: the counter in base 36 in
    * compress mode, otherwise the first readable candidate that is not taken. */
  function FreshId(compress: bool, nextId: nat, keys: set<string>, spec: string, path: string): string
  {
    if compress then Radix(nextId, 36)
    else Candidate(IdBase(spec, path), FirstFreeIndex(IdBase(spec, path), keys, 1))
  }

  /** The error a failed nested `load` becomes in `parse`: the cause, then the call and its
    * 1-based line and column in the requiring file. */
  function Located(cause: string, expr: string, file: string, line: nat, col: nat): string
  {
    cause + Location(expr, file, line, col)
  }

  /** The text `parse` appends to a failed load's message. */
  function Location(expr: string, file: string, line: nat, col: nat): string
  {
    "\n" + expr + " at " + file + ":" + Decimal(line) + ":" + Decimal(col)
  }

  /** The error `parse` raises for a compiled addon. */
  function AddonMessage(name: string, path: string): string
  {
    name + " is Node.js compiled addon module (" + path + ")"
  }

  class Module {
    const path: string
    const dir: string
    const name: string
    const ext: string
    var content: string

    /** A record for the file at `path`, with the parts `path.parse` gives. */
    constructor (path: string, content: string)
      ensures this.path == path && this.content == content
      ensures dir == Paths.Parse(path).dir && name == Paths.Parse(path).name && ext == Paths.Parse(path).ext
    {
      var p := Paths.Parse(path);
      this.path := path;
      this.dir := p.dir;
      this.name := p.name;
      this.ext := p.ext;
      this.content := content;
    }

    /** `parse()`: rejects compiled addons, wraps JSON, and otherwise loads every `require`
      * call found in the comment-masked text, then rewrites the resolved specifiers of the
      * trimmed text to their ids. `ids` is the specifier-to-id table it builds. */
    method Parse(registry: Modules) returns (r: Outcome<string>, ids: map<string, string>)
      requires registry.Valid()
      requires path in registry.RegisteredPaths() && path !in registry.parsed
      modifies this, registry
      decreases registry.Unregistered(), 6
      ensures registry.Valid()
      ensures Extends(registry.compress, old(registry.State()), registry.State())
      ensures registry.Unregistered() <= old(registry.Unregistered())
      ensures |registry.parsed| > |old(registry.parsed)| && registry.parsed[|old(registry.parsed)|] == path
      ensures ext == ".node" ==>
        r == Fail(AddonMessage(name, path)) && content == old(content) && registry.items == old(registry.items)
      ensures ext == ".json" ==>
        r == Pass && content == "module.exports = " + Trim(RemoveCR(old(content))) + ";"
        && registry.items == old(registry.items)
      ensures ext != ".node" && ext != ".json" ==> Resolved(registry.fs, registry.items, dir, ids)
      ensures ext != ".node" && ext != ".json" && r.Pass? ==>
        ids.Keys == LinesSpecs(Scanned(old(content)))
        && content == Rewrite(Trim(RemoveCR(old(content))), ids)
      ensures ext != ".node" && r.Fail? ==> content == old(content)
      ensures ext != ".node" && r.Fail? ==> FailedAt(Scanned(old(content)), r.error, path, ids.Keys)
    {
      MarkParsed(registry.fs, registry.compress, registry.State(), path);
      registry.parsed := registry.parsed + [path];
      ghost var marked := registry.State();
      ids := map[];
      if ext == ".node" {
        return Fail(AddonMessage(name, path)), ids;
      }
      var text := RemoveCR(content);
      var trimmed := Trim(text);
      if ext == ".json" {
        content := "module.exports = " + trimmed + ";";
        return Pass, ids;
      }
      r, ids := LoadLines(registry, ScanLines(Split(Mask(text), '\n')));
      ExtendsTrans(registry.compress, old(registry.State()), marked, registry.State());
      ExtendsKeepsParsed(registry.compress, marked, registry.State(), |old(registry.parsed)|);
      if r.Pass? {
        content := Rewrite(trimmed, ids);
      }
    }

    /** The `.split('\n').map(...)` of `parse`: the calls of each masked line in turn, line
      * numbers counted from 1; the first failure stops the walk. */
    method LoadLines(registry: Modules, scanned: seq<seq<Piece>>) returns (r: Outcome<string>, ids: map<string, string>)
      requires registry.Valid()
      modifies registry
      decreases registry.Unregistered(), 5
      ensures registry.Valid()
      ensures Extends(registry.compress, old(registry.State()), registry.State())
      ensures registry.Unregistered() <= old(registry.Unregistered())
      ensures Resolved(registry.fs, registry.items, dir, ids)
      ensures r.Pass? ==> ids.Keys == LinesSpecs(scanned)
      ensures r.Fail? ==> FailedAt(scanned, r.error, path, ids.Keys)
    {
      ids := map[];
      var n := 0;
      while n < |scanned|
        invariant 0 <= n <= |scanned|
        invariant registry.Valid()
        invariant Extends(registry.compress, old(registry.State()), registry.State())
        invariant registry.Unregistered() <= old(registry.Unregistered())
        invariant Resolved(registry.fs, registry.items, dir, ids)
        invariant ids.Keys == LinesSpecs(scanned[..n])
      {
        ghost var before := registry.State();
        ghost var keys := ids.Keys;
        r, ids := LoadCalls(registry, scanned[n], n, ids);
        ExtendsTrans(registry.compress, old(registry.State()), before, registry.State());
        if r.Fail? {
          assert FailedIn(scanned[n], r.error, path, n, ids.Keys);
          return;
        }
        LinesSpecsSnoc(scanned, n);
        UnionStep({}, keys, ids.Keys, LinesSpecs(scanned[..n]), CallSpecs(scanned[n]));
        n := n + 1;
      }
      assert scanned[..n] == scanned;
      return Pass, ids;
    }

    /** The `item.replace(req, ...)` of one masked line (0-based number `n`): `load(spec,
      * dir)` for each call in order, recording `spec -> id`; a failure is rethrown with the
      * call and its 1-based position appended. */
    method LoadCalls(registry: Modules, pieces: seq<Piece>, n: nat, ids0: map<string, string>)
      returns (r: Outcome<string>, ids: map<string, string>)
      requires registry.Valid()
      requires Resolved(registry.fs, registry.items, dir, ids0)
      modifies registry
      decreases registry.Unregistered(), 4
      ensures registry.Valid()
      ensures Extends(registry.compress, old(registry.State()), registry.State())
      ensures registry.Unregistered() <= old(registry.Unregistered())
      ensures Resolved(registry.fs, registry.items, dir, ids)
      ensures ids0.Keys <= ids.Keys
      ensures r.Pass? ==> ids.Keys == ids0.Keys + CallSpecs(pieces)
      ensures r.Fail? ==> FailedIn(pieces, r.error, path, n, ids.Keys)
    {
      ids := ids0;
      var k := 0;
      while k < |pieces|
        invariant 0 <= k <= |pieces|
        invariant registry.Valid()
        invariant Extends(registry.compress, old(registry.State()), registry.State())
        invariant registry.Unregistered() <= old(registry.Unregistered())
        invariant Resolved(registry.fs, registry.items, dir, ids)
        invariant ids.Keys == ids0.Keys + CallSpecs(pieces[..k])
      {
        ghost var before := registry.State();
        ghost var keys := ids.Keys;
        r, ids := LoadPiece(registry, pieces[k], n, ids);
        ExtendsTrans(registry.compress, old(registry.State()), before, registry.State());
        if r.Fail? {
          assert FailedOn(pieces[k], r.error, path, n);
          assert CallSpecs(pieces[..k]) <= ids.Keys;
          return;
        }
        CallSpecsSnoc(pieces, k);
        UnionStep(ids0.Keys, keys, ids.Keys, CallSpecs(pieces[..k]), if pieces[k].Call? then {pieces[k].spec} else {});
        k := k + 1;
      }
      assert pieces[..k] == pieces;
      return Pass, ids;
    }

    /** One piece of a masked line: a call is loaded with `load(spec, dir)` and recorded as
      * `spec -> id`, and its failure is rethrown with the call and its 1-based position;
      * any other piece leaves everything as it is. */
    method LoadPiece(registry: Modules, piece: Piece, n: nat, ids0: map<string, string>)
      returns (r: Outcome<string>, ids: map<string, string>)
      requires registry.Valid()
      requires Resolved(registry.fs, registry.items, dir, ids0)
      modifies registry
      decreases registry.Unregistered(), 3
      ensures registry.Valid()
      ensures Extends(registry.compress, old(registry.State()), registry.State())
      ensures registry.Unregistered() <= old(registry.Unregistered())
      ensures Resolved(registry.fs, registry.items, dir, ids)
      ensures r.Pass? ==> ids.Keys == ids0.Keys + (if piece.Call? then {piece.spec} else {})
      ensures r.Fail? ==> ids == ids0 && FailedOn(piece, r.error, path, n)
      ensures piece.Call? && Resolve(registry.fs, piece.spec, EffectiveCwd(dir)).None? ==>
        r == Fail(Located(NotFoundMessage(piece.spec), piece.expr, path, n + 1, piece.at + 1))
      ensures piece.Call? && Resolve(registry.fs, piece.spec, EffectiveCwd(dir)).Some? ==>
        (Resolve(registry.fs, piece.spec, EffectiveCwd(dir)).value in old(registry.RegisteredPaths()) ==> r.Pass?)
    {
      if !piece.Call? {
        return Pass, ids0;
      }
      var loaded := registry.Load(piece.spec, dir);
      ResolvedGrows(registry.fs, old(registry.items), registry.items, dir, ids0);
      if loaded.Err? {
        r, ids := Fail(Located(loaded.error, piece.expr, path, n + 1, piece.at + 1)), ids0;
        assert FailedOn(piece, r.error, path, n) by {
          var line, col := n + 1, piece.at + 1;
          assert r.error == Located(loaded.error, piece.expr, path, line, col);
        }
        return;
      }
      ids := ids0[piece.spec := loaded.value];
      ResolvedAdd(registry.fs, registry.items, dir, ids0, piece.spec, loaded.value);
      r := Pass;
    }
  }

  /** The comment-masked lines of a file's raw content, split into pieces. */
  function Scanned(raw: string): seq<seq<Piece>>
  {
    ScanLines(Split(Mask(RemoveCR(raw)), '\n'))
  }

  /** The error is the located failure of a call of the masked lines, and every call on the
    * lines before it was loaded: its specifier is among `done`. */
  ghost predicate FailedAt(scanned: seq<seq<Piece>>, error: string, file: string, done: set<string>)
  {
    exists n :: 0 <= n < |scanned| && LinesSpecs(scanned[..n]) <= done && FailedIn(scanned[n], error, file, n, done)
  }

  /** The error is the located failure of a call on the 0-based line `n`, and every call
    * before it on that line was loaded. */
  ghost predicate FailedIn(pieces: seq<Piece>, error: string, file: string, n: nat, done: set<string>)
  {
    exists k :: 0 <= k < |pieces| && CallSpecs(pieces[..k]) <= done && FailedOn(pieces[k], error, file, n)
  }

  /** The error is some cause followed by `piece`, a call on the 0-based line `n`, with the
    * file and the call's 1-based line and column. */
  ghost predicate FailedOn(piece: Piece, error: string, file: string, n: nat)
  {
    piece.Call? &&
    var line, col := n + 1, piece.at + 1;
    exists cause :: error == Located(cause, piece.expr, file, line, col)
  }

  /** A script whose calls were all loaded: every specifier of its masked lines was recorded
    * with the id of the file it resolves to, and `content` is the trimmed text with those
    * calls rewritten. */
  ghost predicate Loaded(fs: FileSystem, items: map<string, Module>, dir: string, raw: string, content: string)
  {
    exists ids :: Resolved(fs, items, dir, ids) && ids.Keys == LinesSpecs(Scanned(raw))
      && content == Rewrite(Trim(RemoveCR(raw)), ids)
  }

  /** A script whose parse failed at the first call that could not be loaded. */
  ghost predicate Failed(fs: FileSystem, items: map<string, Module>, dir: string, raw: string, file: string,
                         error: string)
  {
    exists ids :: Resolved(fs, items, dir, ids) && FailedAt(Scanned(raw), error, file, ids.Keys)
  }

  /** How the parse of the new record `m` for the readable file `p` decided the result of
    * `load`: a compiled addon fails, JSON is wrapped, and a script either had every call
    * loaded and rewritten, or failed at its first call that could not be loaded. */
  ghost predicate ParsedAs(fs: FileSystem, p: string, m: Module, items: map<string, Module>, r: Result<string, string>)
    requires p in fs.files
    reads m
  {
    (m.ext == ".node" ==> r == Err(AddonMessage(m.name, p)))
    && (m.ext == ".json" ==> r.Ok? && m.content == "module.exports = " + Trim(RemoveCR(fs.files[p])) + ";")
    && (m.ext != ".node" && m.ext != ".json" && r.Ok? ==> Loaded(fs, items, m.dir, fs.files[p], m.content))
    && (m.ext != ".node" && m.ext != ".json" && r.Err? ==> Failed(fs, items, m.dir, fs.files[p], p, r.error))
  }

  /** What `load` leaves when `p` was not registered in `s0`: a record for `p` under the fresh
    * id, `main` set to it if unset, `p` parsed next, and a result that is the fresh id unless
    * `parse` threw; the record's extension (from `path.parse(p)`) decides it for a compiled
    * addon and for JSON. */
  ghost predicate Added(fs: FileSystem, compress: bool, spec: string, p: string,
                        s0: RegistryState, s: RegistryState, r: Result<string, string>)
  {
    var id := FreshId(compress, s0.nextId, s0.items.Keys, spec, p);
    p in fs.files && id !in s0.items && id in s.items && s.items[id].path == p
    && (s0.main == "" && id != "" ==> s.main == id && s.mainPath == p)
    && (compress ==> s.nextId > s0.nextId)
    && (s.items[id].ext == ".node" || s.items[id].ext == ".json" ==> s.items == s0.items[id := s.items[id]])
    && |s.parsed| > |s0.parsed| && s.parsed[|s0.parsed|] == p
    && (r.Ok? ==> r.value == id)
    && (s.items[id].ext == ".node" ==> r == Err(AddonMessage(s.items[id].name, p)))
    && (s.items[id].ext == ".json" ==> r == Ok(id))
  }

  /** In compress mode the registered ids are exactly `0`, `1`, ... below the counter, in
    * base 36: ids are handed out in the order modules are first registered. */
  lemma CounterIdsExact(fs: FileSystem, s: RegistryState)
    requires Consistent(fs, true, s)
    ensures s.items.Keys == CounterRange(s.nextId)
  {
    forall id | id in s.items ensures id in CounterRange(s.nextId) {
      assert CounterId(id, s.nextId);
      var k: nat := ParseRadix(id, 36);
      assert Radix(k, 36) in CounterRange(s.nextId);
    }
  }

  /** The ids `0` to `n - 1` in base 36. */
  ghost function CounterRange(n: nat): set<string>
  {
    set k: nat | k < n :: Radix(k, 36)
  }

  /** `id` is a counter value below `n` in base 36. */
  ghost predicate CounterId(id: string, n: nat)
  {
    var k := ParseRadix(id, 36);
    0 <= k < n && Radix(k, 36) == id
  }

  /** A new module loaded in compress mode gets the counter in base 36, and a JSON or addon
    * module, which loads nothing else, advances the counter by exactly one: leaves loaded
    * one after the other get `0`, `1`, `2`, ... */
  lemma CounterIds(fs: FileSystem, spec: string, p: string, s0: RegistryState, s: RegistryState,
                   r: Result<string, string>)
    requires Consistent(fs, true, s0) && Consistent(fs, true, s) && Added(fs, true, spec, p, s0, s, r)
    ensures var id := Radix(s0.nextId, 36);
      id in s.items && s.items[id].path == p && (r.Ok? ==> r.value == id)
      && (s.items[id].ext == ".node" || s.items[id].ext == ".json" ==> s.nextId == s0.nextId + 1)
  {
    var id := Radix(s0.nextId, 36);
    if s.items[id].ext == ".node" || s.items[id].ext == ".json" {
      var k := s0.nextId + 1;
      RadixInjective(k, s0.nextId, 36);
      RadixRoundTrip(k, 36);
      assert !CounterId(Radix(k, 36), s0.nextId);
      assert Radix(k, 36) !in s.items;
    }
  }

  /** The first two JSON files loaded into an empty compress-mode registry get `0` and `1`. */
  lemma FirstCounterIds(fs: FileSystem, spec1: string, p1: string, spec2: string, p2: string,
                        s0: RegistryState, s1: RegistryState, s2: RegistryState,
                        r1: Result<string, string>, r2: Result<string, string>)
    requires s0.items == map[] && Consistent(fs, true, s0) && Consistent(fs, true, s1) && Consistent(fs, true, s2)
    requires Added(fs, true, spec1, p1, s0, s1, r1) && Added(fs, true, spec2, p2, s1, s2, r2)
    requires "0" in s1.items && s1.items["0"].ext == ".json"
    requires "1" in s2.items && s2.items["1"].ext == ".json"
    ensures r1 == Ok("0") && r2 == Ok("1")
  {
    assert Radix(0, 36) !in s0.items;
    assert Radix(0, 36) == "0";
    CounterIds(fs, spec1, p1, s0, s1, r1);
    assert Radix(1, 36) == "1";
    CounterIds(fs, spec2, p2, s1, s2, r2);
  }

  /** Every recorded specifier maps to a registered id whose record is the file the
    * specifier resolves to from `dir`. */
  ghost predicate Resolved(fs: FileSystem, items: map<string, Module>, dir: string, ids: map<string, string>)
  {
    forall s {:trigger IdFor(ids, s)} :: s in ids ==>
      IdFor(ids, s) in items && Resolve(fs, s, EffectiveCwd(dir)) == Some(items[IdFor(ids, s)].path)
  }

  /** The id recorded for the specifier `s`; `""` when there is none. */
  function IdFor(ids: map<string, string>, s: string): string
  {
    if s in ids then ids[s] else ""
  }

  /** Recording one more specifier with the id of the record it resolves to. */
  lemma ResolvedAdd(fs: FileSystem, items: map<string, Module>, dir: string, ids: map<string, string>,
                    s: string, id: string)
    requires Resolved(fs, items, dir, ids)
    requires id in items && Resolve(fs, s, EffectiveCwd(dir)) == Some(items[id].path)
    ensures Resolved(fs, items, dir, ids[s := id])
  {
    var ids' := ids[s := id];
    forall x | x in ids'
      ensures IdFor(ids', x) in items && Resolve(fs, x, EffectiveCwd(dir)) == Some(items[IdFor(ids', x)].path)
    {
      if x != s {
        assert IdFor(ids', x) == IdFor(ids, x);
      }
    }
  }

  lemma ResolvedGrows(fs: FileSystem, items0: map<string, Module>, items: map<string, Module>, dir: string,
                      ids: map<string, string>)
    requires Resolved(fs, items0, dir, ids)
    requires forall id :: id in items0 ==> id in items && items[id] == items0[id]
    ensures Resolved(fs, items, dir, ids)
  {
  }

  /** The path of the record registered as `id`; `""` when there is none. */
  function PathAt(items: map<string, Module>, id: string): string
  {
    if id in items then items[id].path else ""
  }

  /** The paths of the registered records. */
  function PathsOf(items: map<string, Module>): set<string>
  {
    set id | id in items :: items[id].path
  }

  /** The fields of a `Modules` registry; `parsed` lists the paths handed to `parse`. */
  datatype RegistryState = RegistryState(
    items: map<string, Module>, nextId: nat, main: string, mainPath: string, parsed: seq<string>)

  /** What holds between calls: the records are consistent and, in compress mode, every
    * counter value below `nextId` is in use as an id, so with the ids all below the counter
    * the ids are exactly `0`, `1`, ... up to the counter, in base 36. */
  ghost predicate Consistent(fs: FileSystem, compress: bool, s: RegistryState)
  {
    RecordsConsistent(fs, compress, s) && (compress ==> CountersUsed(s.items, s.nextId))
  }

  /** The ids `0` to `n - 1`, in base 36, are all registered. */
  ghost predicate CountersUsed(items: map<string, Module>, n: nat)
  {
    forall k :: 0 <= k < n ==> Radix(k, 36) in items
  }

  /** Every record is a readable file, no two records share a path, counter ids lie below
    * the counter, `main` names the record of `mainPath`, and every registered path was
    * handed to `parse` exactly once. */
  ghost predicate RecordsConsistent(fs: FileSystem, compress: bool, s: RegistryState)
  {
    (forall id {:trigger PathAt(s.items, id)} :: id in s.items ==> PathAt(s.items, id) in fs.files)
    && (forall a, b {:trigger PathAt(s.items, a), PathAt(s.items, b)} ::
          a in s.items && b in s.items && a != b ==> PathAt(s.items, a) != PathAt(s.items, b))
    && (compress ==> forall id :: id in s.items ==> CounterId(id, s.nextId))
    && (s.main != "" ==> s.main in s.items && s.items[s.main].path == s.mainPath)
    && (s.items == map[] ==> s.main == "")
    && (forall i, j :: 0 <= i < j < |s.parsed| ==> s.parsed[i] != s.parsed[j])
    && (forall i :: 0 <= i < |s.parsed| ==> s.parsed[i] in PathsOf(s.items))
  }

  /** What every `load` keeps: ids are never removed or rebound, the counter never goes
    * back and moves only in compress mode, `main` once set stays, and `parse` is only ever
    * started on more paths. */
  ghost predicate Extends(compress: bool, s0: RegistryState, s: RegistryState)
  {
    (forall id :: id in s0.items ==> id in s.items && s.items[id] == s0.items[id])
    && s0.nextId <= s.nextId && (!compress ==> s.nextId == s0.nextId)
    && (s0.main != "" ==> s.main == s0.main && s.mainPath == s0.mainPath)
    && |s0.parsed| <= |s.parsed| && s.parsed[..|s0.parsed|] == s0.parsed
  }

  lemma ExtendsTrans(compress: bool, s0: RegistryState, s1: RegistryState, s2: RegistryState)
    requires Extends(compress, s0, s1) && Extends(compress, s1, s2)
    ensures Extends(compress, s0, s2)
  {
    assert s2.parsed[..|s0.parsed|] == s2.parsed[..|s1.parsed|][..|s0.parsed|];
  }

  lemma ExtendsKeepsParsed(compress: bool, s0: RegistryState, s: RegistryState, i: nat)
    requires Extends(compress, s0, s) && i < |s0.parsed|
    ensures s.parsed[i] == s0.parsed[i]
  {
    assert s.parsed[..|s0.parsed|][i] == s.parsed[i];
  }

  lemma UnionStep(base: set<string>, before: set<string>, after: set<string>, done: set<string>, step: set<string>)
    requires before == base + done && after == before + step
    ensures after == base + (done + step)
  {
  }

  /** Registering one more readable path leaves strictly fewer unregistered ones. */
  lemma SmallerUnregistered(files: set<string>, paths0: set<string>, paths: set<string>, p: string)
    requires paths == paths0 + {p} && p in files && p !in paths0
    ensures files - paths < files - paths0
  {
    assert p in files - paths0;
  }

  /** Registered paths only grow along `Extends`, so unregistered files only shrink. */
  lemma ExtendsPaths(compress: bool, s0: RegistryState, s: RegistryState)
    requires Extends(compress, s0, s)
    ensures PathsOf(s0.items) <= PathsOf(s.items)
  {
    forall p | p in PathsOf(s0.items) ensures p in PathsOf(s.items) {
      var id :| id in s0.items && s0.items[id].path == p;
      assert id in s.items;
    }
  }

  /** Storing a record for a new readable path under a fresh id keeps the registry
    * consistent, sets `main` if it was unset, and registers exactly that path. */
  lemma InsertConsistent(fs: FileSystem, compress: bool, s: RegistryState, s': RegistryState, id: string, m: Module)
    requires RecordsConsistent(fs, compress, s)
    requires compress ==> s.nextId > 0 && id == Radix(s.nextId - 1, 36) && CountersUsed(s.items, s.nextId - 1)
    requires id !in s.items && m.path in fs.files && m.path !in PathsOf(s.items)
    requires s'.items == s.items[id := m] && s'.nextId == s.nextId && s'.parsed == s.parsed
    requires s.main == "" ==> s'.main == id && s'.mainPath == m.path
    requires s.main != "" ==> s'.main == s.main && s'.mainPath == s.mainPath
    ensures Consistent(fs, compress, s') && Extends(compress, s, s')
    ensures PathsOf(s'.items) == PathsOf(s.items) + {m.path}
  {
    if compress {
      InsertCounters(s.items, s.nextId, id, m);
    }
    var items' := s'.items;
    assert forall x {:trigger PathAt(items', x)} :: PathAt(items', x) == if x == id then m.path else PathAt(s.items, x);
    assert m.path !in PathsOf(s.items);
    forall x | x in s.items ensures PathAt(s.items, x) != m.path {
      assert s.items[x].path in PathsOf(s.items);
    }
    assert PathsOf(items') == PathsOf(s.items) + {m.path} by {
      forall p | p in PathsOf(items') ensures p in PathsOf(s.items) + {m.path} {
        var k :| k in items' && items'[k].path == p;
        if k != id { assert k in s.items; }
      }
      forall p | p in PathsOf(s.items) + {m.path} ensures p in PathsOf(items') {
        if p == m.path {
          assert items'[id].path == p;
        } else {
          var k :| k in s.items && s.items[k].path == p;
          assert items'[k].path == p;
        }
      }
    }
  }

  /** Storing the counter id `n - 1` keeps every id a counter id below `n` and uses up every
    * counter value below `n`. */
  lemma InsertCounters(items: map<string, Module>, n: nat, id: string, m: Module)
    requires n > 0 && id == Radix(n - 1, 36) && CountersUsed(items, n - 1)
    requires forall x :: x in items ==> CounterId(x, n - 1)
    ensures CountersUsed(items[id := m], n)
    ensures forall x :: x in items[id := m] ==> CounterId(x, n)
  {
    RadixRoundTrip(n - 1, 36);
    assert CounterId(id, n);
    forall x | x in items ensures CounterId(x, n) {
      assert CounterId(x, n - 1);
    }
  }

  /** Logging a registered path that was not parsed yet as parsed keeps the registry
    * consistent. */
  lemma MarkParsed(fs: FileSystem, compress: bool, s: RegistryState, p: string)
    requires Consistent(fs, compress, s) && p in PathsOf(s.items) && p !in s.parsed
    ensures Consistent(fs, compress, s.(parsed := s.parsed + [p]))
    ensures Extends(compress, s, s.(parsed := s.parsed + [p]))
  {
    var s' := s.(parsed := s.parsed + [p]);
    assert s'.parsed[..|s.parsed|] == s.parsed;
    forall i, j | 0 <= i < j < |s'.parsed| ensures s'.parsed[i] != s'.parsed[j] {
      if j == |s.parsed| {
        assert s'.parsed[i] == s.parsed[i];
      }
    }
  }

  class Modules {
    /** The files `load` can read. */
    const fs: FileSystem
    /** `options.compress`: base-36 counter ids instead of readable names. */
    const compress: bool
    var items: map<string, Module>
    var nextId: nat
    /** The id of the first module registered; `""` while there is none (`this.main` falsy). */
    var main: string
    /** `this.path`: the file of the main module. */
    var mainPath: string
    /** The paths handed to `parse`, in order. */
    ghost var parsed: seq<string>

    constructor (fs: FileSystem, compress: bool)
      ensures this.fs == fs && this.compress == compress
      ensures items == map[] && nextId == 0 && main == "" && parsed == []
      ensures Valid()
    {
      this.fs := fs;
      this.compress := compress;
      items := map[];
      nextId := 0;
      main := "";
      mainPath := "";
      parsed := [];
    }

    /** The registry's mutable fields as one value. */
    ghost function State(): RegistryState
      reads this
    {
      RegistryState(items, nextId, main, mainPath, parsed)
    }

    /** The files already registered. */
    function RegisteredPaths(): set<string>
      reads this
    {
      PathsOf(items)
    }

    /** The readable files not registered yet: `load` registers one per new module, so the
      * set shrinks and the mutual recursion of `load` and `parse` ends, cycles included. */
    function Unregistered(): set<string>
      reads this
    {
      fs.files.Keys - PathsOf(items)
    }

    ghost predicate Valid()
      reads this
    {
      Consistent(fs, compress, State())
    }

    /** The `for...in` search for a registered record with the same path. */
    method FindByPath(p: string) returns (found: Option<string>)
      ensures found.Some? ==> found.value in items && items[found.value].path == p
      ensures found.None? ==> p !in RegisteredPaths()
    {
      var keys := items.Keys;
      while keys != {}
        invariant keys <= items.Keys
        invariant forall id :: id in items && id !in keys ==> items[id].path != p
        decreases keys
      {
        var id :| id in keys;
        if items[id].path == p {
          return Some(id);
        }
        keys := keys - {id};
      }
      return None;
    }

    /** The readable-id loop: the first of `base`, `base2`, `base3`, ... that is not a key. */
    method UniqueName(base: string) returns (id: string)
      ensures id == Candidate(base, FirstFreeIndex(base, items.Keys, 1))
    {
      var n := 1;
      id := base;
      while id in items
        invariant 1 <= n && id == Candidate(base, n)
        invariant forall m :: 1 <= m < n ==> Candidate(base, m) in items
        invariant FirstFreeIndex(base, items.Keys, n) == FirstFreeIndex(base, items.Keys, 1)
        decreases |items.Keys| + 1 - n
      {
        CandidatesBounded(base, n, items.Keys);
        n := n + 1;
        id := base + Decimal(n);
      }
    }

    /** The probing half of `load(spec, cwd)`: `loadAsFile` and `loadAsDirectory` on the
      * local base, then on `spec` inside each directory `nodeModulesPaths` lists. */
    method Locate(spec: string, cwd: string) returns (hit: Option<string>)
      ensures hit == Resolve(fs, spec, EffectiveCwd(cwd))
    {
      var here := EffectiveCwd(cwd);
      var dirs := Paths.NodeModulesPaths(here);
      hit := FirstHit(fs.files, LocalProbes(fs, spec, here) + ModulesProbes(fs, spec, dirs));
    }

    /** The id a new module gets: the next base-36 counter value, or the first free
      * readable candidate. */
    method NewId(spec: string, p: string) returns (id: string)
      requires Valid()
      modifies this
      ensures RecordsConsistent(fs, compress, State()) && (compress ==> CountersUsed(items, old(nextId)))
      ensures items == old(items) && main == old(main) && mainPath == old(mainPath) && parsed == old(parsed)
      ensures Extends(compress, old(State()), State())
      ensures id == FreshId(compress, old(nextId), items.Keys, spec, p) && id !in items
      ensures compress ==> nextId == old(nextId) + 1 && CounterId(id, nextId)
      ensures !compress ==> nextId == old(nextId)
    {
      if compress {
        id := Radix(nextId, 36);
        RadixRoundTrip(nextId, 36);
        nextId := nextId + 1;
      } else {
        id := UniqueName(IdBase(spec, p));
      }
    }

    /** `this.main || (this.main = id, ...)` and `this.items[id] = module`: the record is
      * stored under its fresh id, and becomes main when no main is recorded. */
    method Store(id: string, m: Module)
      requires RecordsConsistent(fs, compress, State())
      requires compress ==> nextId > 0 && id == Radix(nextId - 1, 36) && CountersUsed(items, nextId - 1)
      requires id !in items && m.path in fs.files && m.path !in RegisteredPaths()
      modifies this
      ensures items == old(items)[id := m] && nextId == old(nextId) && parsed == old(parsed)
      ensures old(main) == "" ==> main == id && mainPath == m.path
      ensures old(main) != "" ==> main == old(main) && mainPath == old(mainPath)
      ensures Valid() && Extends(compress, old(State()), State())
      ensures RegisteredPaths() == old(RegisteredPaths()) + {m.path}
    {
      ghost var before := State();
      if main == "" {
        main := id;
        mainPath := m.path;
      }
      items := items[id := m];
      InsertConsistent(fs, compress, before, State(), id, m);
    }

    /** The part of `load` between finding the new readable file of the record `m` and
      * parsing it: `m` is stored under its fresh id, which becomes main when no main is
      * recorded. */
    method Insert(spec: string, m: Module) returns (id: string)
      requires Valid() && m.path in fs.files && m.path !in RegisteredPaths()
      modifies this
      ensures Valid() && Extends(compress, old(State()), State())
      ensures id == FreshId(compress, old(nextId), old(items).Keys, spec, m.path) && id !in old(items)
      ensures items == old(items)[id := m] && parsed == old(parsed) && m.path !in parsed
      ensures old(main) == "" ==> main == id && mainPath == m.path
      ensures compress ==> nextId == old(nextId) + 1
      ensures Unregistered() < old(Unregistered()) && m.path in RegisteredPaths()
    {
      id := NewId(spec, m.path);
      ghost var counted := State();
      Store(id, m);
      ExtendsTrans(compress, old(State()), counted, State());
      SmallerUnregistered(fs.files.Keys, old(RegisteredPaths()), RegisteredPaths(), m.path);
    }

    /** A new readable file: allocate its id, record it as main when none is, store the
      * record and only then parse it; the id is returned unless `parse` throws. */
    method AddNew(spec: string, p: string) returns (r: Result<string, string>)
      requires Valid() && p in fs.files && p !in RegisteredPaths()
      modifies this
      decreases Unregistered(), 0
      ensures Valid()
      ensures Extends(compress, old(State()), State())
      ensures Unregistered() < old(Unregistered())
      ensures p in RegisteredPaths()
      ensures Added(fs, compress, spec, p, old(State()), State(), r)
      ensures var id := FreshId(compress, old(nextId), old(items).Keys, spec, p);
        id in items && ParsedAs(fs, p, items[id], items, r)
    {
      var m := new Module(p, fs.files[p]);
      var id := Insert(spec, m);
      ghost var stored := State();
      var outcome, ids := m.Parse(this);
      ExtendsTrans(compress, old(State()), stored, State());
      ExtendsPaths(compress, stored, State());
      assert items[id] == m;
      if outcome.Fail? {
        r := Err(outcome.error);
      } else {
        r := Ok(id);
      }
      AddedHolds(spec, p, old(State()), stored, id, m, outcome, ids, r);
    }

    /** The facts `AddNew` gathered, put together as `Added`. */
    lemma AddedHolds(spec: string, p: string, s0: RegistryState, stored: RegistryState, id: string, m: Module,
                     outcome: Outcome<string>, ids: map<string, string>, r: Result<string, string>)
      requires p in fs.files && m.path == p
      requires id == FreshId(compress, s0.nextId, s0.items.Keys, spec, p) && id !in s0.items
      requires id in items && items[id] == m
      requires s0.main == "" && id != "" ==> main == id && mainPath == p
      requires compress ==> nextId > s0.nextId
      requires m.ext == ".node" || m.ext == ".json" ==> items == s0.items[id := m]
      requires |parsed| > |s0.parsed| && parsed[|s0.parsed|] == p
      requires r == if outcome.Fail? then Err(outcome.error) else Ok(id)
      requires m.ext == ".node" ==> outcome == Fail(AddonMessage(m.name, m.path))
      requires m.ext == ".json" ==> outcome == Pass && m.content == "module.exports = " + Trim(RemoveCR(fs.files[p])) + ";"
      requires m.ext != ".node" && m.ext != ".json" ==> Resolved(fs, items, m.dir, ids)
      requires m.ext != ".node" && m.ext != ".json" && outcome.Pass? ==>
        ids.Keys == LinesSpecs(Scanned(fs.files[p])) && m.content == Rewrite(Trim(RemoveCR(fs.files[p])), ids)
      requires m.ext != ".node" && outcome.Fail? ==> FailedAt(Scanned(fs.files[p]), outcome.error, p, ids.Keys)
      ensures Added(fs, compress, spec, p, s0, State(), r)
      ensures ParsedAs(fs, p, m, items, r)
    {
    }

    /** The `catch` half of `load`: the id of the record for the readable file `p`, found
      * among the registered ones, or else a new one. */
    method Register(spec: string, p: string) returns (r: Result<string, string>)
      requires Valid() && p in fs.files
      modifies this
      decreases Unregistered(), 1
      ensures Valid()
      ensures Extends(compress, old(State()), State())
      ensures Unregistered() <= old(Unregistered())
      ensures p in RegisteredPaths()
      ensures r.Ok? ==> r.value in items && items[r.value].path == p
      ensures p in old(RegisteredPaths()) ==>
        r.Ok? && r.value in items && items[r.value].path == p
        && items == old(items) && nextId == old(nextId) && parsed == old(parsed)
      ensures p !in old(RegisteredPaths()) ==> Added(fs, compress, spec, p, old(State()), State(), r)
      ensures p !in old(RegisteredPaths()) ==>
        var id := FreshId(compress, old(nextId), old(items).Keys, spec, p);
        id in items && ParsedAs(fs, p, items[id], items, r)
    {
      var existing := FindByPath(p);
      if existing.Some? {
        return Ok(existing.value);
      }
      r := AddNew(spec, p);
    }

    /** `load(spec, cwd)`: the id of the module `spec` resolves to from `cwd`, registering and
      * parsing it first when its path is new; the not-found error when nothing reads. */
    method Load(spec: string, cwd: string) returns (r: Result<string, string>)
      requires Valid()
      modifies this
      decreases Unregistered(), 2
      ensures Valid()
      ensures Extends(compress, old(State()), State())
      ensures Unregistered() <= old(Unregistered())
      ensures Resolve(fs, spec, EffectiveCwd(cwd)).None? ==>
        r == Err(NotFoundMessage(spec)) && items == old(items) && nextId == old(nextId) && parsed == old(parsed)
      ensures Resolve(fs, spec, EffectiveCwd(cwd)).Some? ==>
        var p := Resolve(fs, spec, EffectiveCwd(cwd)).value;
        p in RegisteredPaths() && (r.Ok? ==> r.value in items && items[r.value].path == p)
        && (p in old(RegisteredPaths()) ==>
              r.Ok? && r.value in items && items[r.value].path == p
              && items == old(items) && nextId == old(nextId) && parsed == old(parsed))
        && (p !in old(RegisteredPaths()) ==> Added(fs, compress, spec, p, old(State()), State(), r))
    {
      var hit := Locate(spec, cwd);
      if hit.None? {
        return Err(NotFoundMessage(spec));
      }
      r := Register(spec, hit.value);
    }
  }
}
