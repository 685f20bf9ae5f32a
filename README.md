# web-bundler module graph, in Dafny

This project models the core of web-bundler, a tool that follows the synchronous
`require('...')` calls of one entry script through the files they name and emits one
self-contained bundle: an immediately invoked handler that receives a table of module
factories keyed by short ids.

The model covers:

- **Resolution** (`Resolver`, `Paths`): a specifier and the requiring module's directory
  become the first readable file among an ordered list of probes (the file itself with
  `""`, `.js`, `.json`, `.node`, then the directory's `package.json` `main` and its
  `index.*` files), first for `./`, `../` and absolute specifiers, then inside every
  `node_modules` directory from the nearest ancestor outward. Where the source throws the
  found module to stop probing, the model evaluates the candidate list to its first hit.
- **Registry** (`ModuleGraph.Modules`): a class with the fields `items`, `nextId`, `main`
  and `path` (here `mainPath`) of the source. `Load` deduplicates by absolute path,
  allocates a base-36 counter id or a readable name with numeric suffixes, records the
  first module as main, stores the record and only then parses it. The mutual recursion
  of `Load` and `Parse` terminates on cyclic graphs because the set of readable files not
  yet registered shrinks with every new module.
- **Content processing** (`Content`, `ModuleGraph.Module.Parse`): removal of carriage
  returns, whitespace trimming, the JSON wrapper, rejection of compiled addons, masking of
  comments, the `require(...)` scanner, located errors, and the rewrite of resolved
  specifiers to ids.
- **Assembly** (`Bundler`): entry-path absolutisation, handler-path selection, indentation
  of module bodies, factory entries, the separator and the composed bundle text, and the
  routing of messages.
- **Runtime handlers** (`Compact`, `NodeHandler`): the cached recursive `require` of both
  bundled handlers, with factories given as scripts of steps (`Factories`). The node
  handler also keeps the `parent`, `children` and `loaded` bookkeeping.

Behaviour of the code worth knowing:

- Only comments are masked before scanning. A quoted string passes through unchanged, so a
  `require('x')` written inside a string literal is still resolved and rewritten
  (lib/modules.js:49-54).
- Every failed read of a probe counts as a miss, whatever the reason, and probing goes on
  (lib/modules.js:204-211).
- A compiled addon (`.node`) is found by the resolver like any file; it is `parse` that
  rejects it, after the record has been stored under its id (lib/modules.js:31-34, 152-153).

## Model

| member | source | states |
|---|---|---|
| `Resolver.Resolve` | lib/modules.js:111-126 | A found path is a readable file (a key of the file map). |
| `Resolver.FirstHitIndex` | lib/modules.js:204-211 | The probe that wins is readable and every probe before it fails to read; with none readable, nothing is found. |
| `Resolver.FirstHitAppend` | lib/modules.js:111-126 | Probing one list and then another finds in the first list when it has a readable probe, else in the second. |
| `Resolver.LocalFileWins` | lib/modules.js:174-179 | For a `./`, `../` or absolute specifier, the `k`-th of the exact path, `.js`, `.json`, `.node` is the result when it reads and those before it do not. |
| `Resolver.FileBeforeDirectory` | lib/modules.js:113-119 | For one base path, the file probes are all tried before the directory probes (`main`, then `index.js`, `index.json`, `index.node`). |
| `Resolver.LocalProbesFirst` | lib/modules.js:113-126 | A local or absolute specifier with a readable probe of its own resolves to it without consulting `node_modules`; otherwise resolution is the `node_modules` search. |
| `Resolver.NearestModulesDirWins` | lib/modules.js:122-126 | Among the `node_modules` directories, the nearest one with a readable probe wins over all further out. |
| `Resolver.ResolveFailsExactlyWhenAllMiss` | lib/modules.js:158-167 | Resolution fails if and only if no candidate probe reads. |
| `Resolver.NotFoundMessage` | lib/modules.js:158-167 | The error starts with `<spec> module not found` and carries ` (<spec> is Node.js core module)` exactly when the specifier is in the fixed core-module list. |
| `Paths.NodeModulesPaths` | lib/modules.js:219-227 | The decrementing loop returns exactly the specified list of `node_modules` directories. |
| `Paths.AncestorLengths` | lib/modules.js:222-223 | The visited prefixes strictly decrease (nearest ancestor first), skip those ending in a `node_modules` segment, and include every other prefix. |
| `Paths.ModulesDirsAreAncestors` | lib/modules.js:222-225 | Each listed directory is its ancestor followed by `/node_modules`, in nearest-first order. |
| `Paths.ParseRoundTrip` | lib/modules.js:19-23 | `dir`, `/`, `name` and `ext` put back together give the path; name and extension hold no separator. |
| `Paths.Join` | lib/modules.js:114 | Joining to an absolute directory gives an absolute path. |
| `Text.JoinSplit` | index.js:50-51 | Joining the pieces of a split with the same character gives the text back. |
| `Text.SplitJoin` | index.js:50-51 | Splitting a join of separator-free pieces gives the pieces back. |
| `Text.RadixRoundTrip` | lib/modules.js:141 | `n.toString(36)` reads back as `n`, so counter ids are distinct. |
| `ModuleGraph.EffectiveCwd` | lib/modules.js:98 | An empty directory means the root `/`; any other is kept. |
| `ModuleGraph.CandidateInjective` | lib/modules.js:145-147 | The readable candidates `name`, `name2`, `name3`, ... are pairwise distinct. |
| `ModuleGraph.CandidatesBounded` | lib/modules.js:147 | The unique-name loop rejects at most as many candidates as `items` has keys, so it ends. |
| `ModuleGraph.InsertConsistent` | lib/modules.js:150-152 | Storing a new readable path under a fresh id keeps paths unique, sets `main` only if unset, registers exactly that path, and in compress mode keeps the ids exactly the counter values below `nextId`. |
| `ModuleGraph.Module.constructor` | lib/modules.js:18-25 | The record holds the path, its `dir`, `name` and `ext` parts and the raw content. |
| `ModuleGraph.Module.Parse` | lib/modules.js:30-74 | Parsing appends the path to the parsed log, and may only be called on a registered path not parsed before. `.node` fails naming the module and changes nothing; `.json` becomes exactly `module.exports = <trimmed>;`; a script loads exactly the specifiers of the calls on its comment-masked lines and becomes the trimmed text with resolved calls rewritten; a failure leaves the content and is the located error of a call all of whose predecessors were loaded. |
| `ModuleGraph.Module.LoadLines` | lib/modules.js:55-69 | On success the recorded specifiers are those of every line's calls; on failure the error is located at a call on some line `n`, every call of the lines before `n` having been recorded. |
| `ModuleGraph.Module.LoadCalls` | lib/modules.js:56-68 | The calls of a line are recorded `spec -> id`, each id naming the record its specifier resolves to, and earlier records are kept; on failure the failing call is one whose predecessors on the line were all recorded. |
| `ModuleGraph.Module.LoadPiece` | lib/modules.js:57-67 | A failed load is rethrown as its cause followed by the call text and its 1-based line and column, with nothing recorded; an unresolvable specifier fails with exactly the not-found message so located; a specifier resolving to an already registered file passes. |
| `ModuleGraph.Modules.constructor` | lib/modules.js:81-85 | A registry starts with no items, counter 0 and no main. |
| `ModuleGraph.Modules.FindByPath` | lib/modules.js:133-136 | The search finds an id whose record has the path, or reports that no record has it. |
| `ModuleGraph.Modules.UniqueName` | lib/modules.js:144-147 | The loop returns the candidate at `FirstFreeIndex`: the first of `name`, `name2`, `name3`, ... that is not a key of `items`. |
| `ModuleGraph.FirstFreeIndex` | lib/modules.js:145-147 | The index found is at least the one the search starts from, its candidate is not a key, and every candidate from `name` up to it is one: it is the first free name. |
| `ModuleGraph.Modules.Locate` | lib/modules.js:111-126 | The probing half of `load` finds exactly what `Resolve` specifies, from `/` when the directory is empty. |
| `ModuleGraph.Modules.NewId` | lib/modules.js:139-148 | The id is `FreshId`: in compress mode `nextId` in base 36, which reads back below the incremented counter; otherwise the first free readable candidate with the counter unchanged. Either way the id was not a key. |
| `ModuleGraph.Modules.Store` | lib/modules.js:150-152 | The record is stored under its id, and becomes main (with its path) only when no main is recorded; the parsed log is untouched. |
| `ModuleGraph.Modules.Insert` | lib/modules.js:139-152 | A new readable path is stored under its fresh id, which was not a key, and becomes main when none is; nothing is parsed yet, and the set of unregistered files strictly shrinks. |
| `ModuleGraph.MarkParsed` | lib/modules.js:152-153 | Recording a registered path not parsed before keeps the registry invariant, under which every path is parsed at most once, and extends the history. |
| `ModuleGraph.CounterIds` | lib/modules.js:139-153 | In compress mode a new module's id is the counter in base 36, its record has the loaded path, a returned id is that one, and a JSON or addon module, which loads nothing else, advances the counter by exactly one. |
| `ModuleGraph.CounterIdsExact` | lib/modules.js:140-141 | In compress mode the registered ids are exactly `0`, `1`, ... below the counter, in base 36. |
| `ModuleGraph.FirstCounterIds` | lib/modules.js:139-153 | The first two JSON files loaded into an empty compress-mode registry return `0` and `1`. |
| `ModuleGraph.Modules.AddNew` | lib/modules.js:139-155 | A new path gets its fresh id, is stored (and made main when none is) before it is parsed, and is the next path handed to `parse`. The id is returned exactly when parsing succeeds: `.node` gives the addon error, `.json` succeeds with the wrapped text, a script succeeds with its rewritten text or fails with the located error of its first failing call. |
| `ModuleGraph.Modules.Register` | lib/modules.js:133-155 | A path already registered returns its id with `items`, `nextId` and the parsed log unchanged; a new path is added as `AddNew` states, with the same fresh id, main, parse-once and result facts. |
| `ModuleGraph.Modules.Load` | lib/modules.js:97-228 | Nothing found gives the not-found error with no change; a found path ends up registered and a returned id names its record; a repeat load succeeds and changes nothing; a new path gets the fresh id (`0`, `1`, ... in compress mode), becomes main when none is set, is parsed once and returns its id unless parsing fails, a `.json` file succeeding and a `.node` file failing with the addon error. Ids are never rebound and `main` once set stays. |
| `Content.RemoveCR` | lib/modules.js:36 | No carriage return remains, and text without one is unchanged. |
| `Content.RemoveCRAppend` | lib/modules.js:36 | Removing carriage returns distributes over concatenation. |
| `Content.RemoveCRChar` | lib/modules.js:36 | A carriage return is dropped and any other character is kept. |
| `Content.TrimShape` | lib/modules.js:38 | The trimmed text has no white space at either end and no space or tab before a newline. |
| `Content.TrimKeepsNonSpace` | lib/modules.js:38 | Trimming removes only white space: the other characters are those of the input, in order. |
| `Content.TrimFixed` | lib/modules.js:38 | A text already of the trimmed shape is left unchanged. |
| `Content.Mask` | lib/modules.js:48-54 | The masked copy has the same length and the same newline positions, and differs only where a word character became `-`. |
| `Content.MaskShift` | lib/modules.js:48-54 | The masking of a text after a complete token does not depend on what came before it. |
| `Content.PlainPrefixKept` | lib/modules.js:48-54 | Code without quotes or slashes is kept as it is, and the text after it is masked on its own. |
| `Content.LineCommentMaskedBefore` | lib/modules.js:50-53 | A `//` comment up to a line end has every word character turned into `-`, and what follows is masked on its own. |
| `Content.CommentAfterCodeMasked` | lib/modules.js:50-53 | A `//` comment after code without quotes or slashes is masked to `//` and its dashed text, the code being masked on its own. |
| `Content.BlockCommentMasked` | lib/modules.js:50-53 | A closed `/* */` comment has every word character turned into `-`, and what follows is masked on its own. |
| `Content.StringLiteralKeptBefore` | lib/modules.js:51-52 | A one-line, non-empty quoted string without escapes is kept verbatim, and what follows is masked on its own. |
| `Content.CommentedRequireIgnored` | lib/modules.js:49-56 | A line of code with no call, quote or slash followed by a `//` comment scans to plain characters only, so a `require(...)` in the comment is never loaded. |
| `Content.MatchAtSound` | lib/modules.js:46 | A match is `require`, white space, `(`, a quote, a specifier without line terminators, and the first `<quote>)` after it. |
| `Content.MatchAtFinds` | lib/modules.js:46 | Wherever `require`, white space, `(`, a quote, a one-line run and that quote with `)` occur, a match with that quote is found ending no later; it ends exactly there when no earlier `<quote>)` intervenes. |
| `Content.ScanLossless` | lib/modules.js:56-71 | The scanner's pieces put back together are the scanned text. |
| `Content.LinesSpecsExact` | lib/modules.js:55-68 | A specifier is loaded exactly when a call on some masked line names it. |
| `Content.RewriteIdentity` | lib/modules.js:71-73 | A text none of whose calls names a resolved specifier is rewritten to itself. |
| `Content.RewriteLoneCall` | lib/modules.js:71-73 | A call whose specifier was resolved becomes `require(<q><id><q>)` with the same quote; an unresolved one stays verbatim. |
| `Content.EmbeddedCallScanned` | lib/modules.js:46-56 | A complete call between two texts without calls is scanned as one call piece at its offset, everything else as plain characters. |
| `Content.RewriteEmbeddedCall` | lib/modules.js:71-73 | Between any texts without calls, a resolved call is replaced by `require(<q><id><q>)` and an unresolved one kept, the surrounding text unchanged. |
| `Content.RewrittenCallRescans` | lib/modules.js:46-72 | A rewritten call is again one complete call naming the id, with the same quote. |
| `Bundler.EntryPath` | index.js:23 | An absolute entry file is kept; a relative one is joined to an absolute `cwd` and is absolute. |
| `Bundler.EntryPathIdempotent` | index.js:23 | Absolutising the entry path twice is the same as once. |
| `Bundler.HandlerPath` | index.js:40-45 | A name without `/` maps to `./handlers/<name>`, an absolute path is kept, any other path is joined to `cwd`. |
| `Bundler.BareHandlerInHandlersDir` | index.js:45 | A bare handler name is a file directly inside `./handlers`. |
| `Bundler.IndentLines` | index.js:50-51 | Indenting keeps the line count; a non-empty line gains exactly four spaces and an empty line stays empty. |
| `Bundler.UnindentIndent` | index.js:50-51 | Removing the indentation gives the module's content back. |
| `Bundler.SeparatorShape` | index.js:55 | The separator is `  // `, 75 dashes and a newline. |
| `Bundler.Make` | index.js:47-58 | Every id of `items` is visited exactly once, and the bundle is the handler applied to `this`, the main id and the entries joined by `,\n` and the separator. |
| `Bundler.Route` | index.js:81-90 | Outside watch mode errors are thrown and notices dropped; in watch mode errors go only to `onerror` as `<time> <name>: <message>` and notices only to `onsuccess` as `<time> <message>`. |
| `Compact.Loader.Require` | handlers/compact.js:3-7 | A cached id returns its current exports with nothing changed, also mid-cycle; a new id is cached, then its factory is called once; the result is the entry's exports after the factory, and every entry cached before keeps its exports reference. |
| `Compact.Loader.Create` | handlers/compact.js:4 | The entry `{exports: {}}` is cached (with a new empty object) before the factory call is recorded. |
| `Compact.Loader.RunFactory` | handlers/compact.js:5 | The factory of the id last recorded as called runs with the exports the entry held at the call; every other cached entry keeps its exports reference, and factory calls stay at most one per id. |
| `Compact.Boot` | handlers/compact.js:1-8 | The main factory is the first called; on success exactly the cached ids had their factory called, each once, and the result is the main entry's exports. |
| `NodeHandler.Adopt` | handlers/node.js:15-22 | A new record starts with no children, not loaded, with its parent; it is appended to the parent's children and no other record changes. |
| `NodeHandler.AdoptLinked` | handlers/node.js:15-25 | Adding a record keeps the tree: only main has no parent, each parent lists its children, each child names its parent, and no child is listed twice. |
| `NodeHandler.AdoptConsistent` | handlers/node.js:25-26 | Caching a record before its factory runs keeps the call bookkeeping: each factory called at most once, exactly for cached ids. |
| `NodeHandler.FinishConsistent` | handlers/node.js:36 | Setting `loaded` once the factory returns keeps `loaded` equal to "called and returned". |
| `NodeHandler.Loader.Require` | handlers/node.js:23-28 | A cache hit returns the cached exports with nothing changed; a miss caches a new record under the requirer, appends it to the requirer's children, runs the factory once and returns the record's exports, which is then loaded. |
| `NodeHandler.Loader.Load` | handlers/node.js:29-37 | The factory runs with the record not loaded, and `loaded` is true once it returns; the main record is cached throughout. |
| `NodeHandler.Loader.Start` | handlers/node.js:38 | Main is cached with no parent and its factory is the first called; on success every record is loaded. |
| `NodeHandler.Boot` | handlers/node.js:13-39 | On success every cached record is loaded and had its factory called exactly once, main first, and the records form the module tree rooted at main. |

## Left out

- `Modules.watch`, the rebuild loop with its file watchers, timers and events (lib/modules.js:237-260); the command-line front end (bin/bundler.js).
- Real file access: the disk is a map from readable paths to contents, and `package.json` is a map from manifest paths to a `main` string that is present only when the file reads, parses as JSON and defines `main`. JSON parsing itself is not modelled, nor is a `main` that is defined but not a string (`null`, a number): there `Path.join` throws a `TypeError` outside the `try` of `loadAsDirectory`, which `load` rethrows because it is not a found module (lib/modules.js:186-190, 128-130); the model treats such a manifest as having no `main`.
- Windows paths: the separator is `/`, so `Path.sep` and `Path.isAbsolute` follow POSIX; `Path.join` and `Path.parse` are modelled for that case only.
- Minification with UglifyJS, writing the bundle to a file, the elapsed-time measurement and the clock prefix of messages (the time is a parameter of `Bundler.Route`).
- Loading the handler's source text with `require(...).toString()`: only the choice of its path is modelled.
- The process-wide `modules` singleton and its sticky `options`: a `Modules` object is created per build and its compress flag is fixed at construction.
- `ModuleGraph.Module.Parse`: the comment-masking regular expression is modelled by a scanner that skips one-line quoted strings (with backslash escapes) and masks `//` and closed `/* */` comments; the regular expression's exact treatment of empty strings, escaped line breaks and lazy matching is not reproduced.
- `Bundler.Make`: the order of the entries follows JavaScript's key enumeration order; the model leaves that order open and states only that every id appears exactly once.
- `Compact.Boot`: factories are scripts of `require` calls and property writes rather than arbitrary JavaScript, and the `this` binding to the global argument is not modelled.
- `NodeHandler.Boot`: `require.main` and `require.cache` are modelled by the single shared cache field and the invariant that main is cached whenever a factory runs; the `id` field of a record is its key in the cache.
- `ModuleGraph.Modules.Load`: the main-module fact holds for a non-empty id only. `this.main || ...` treats an empty id as unset, so loads nested in the parse of a module whose id is empty may set `main` again. For the same reason `Bundler.MainText` prints `undefined` for an empty main id, where the bundle template would print `''`: the model keeps one value, `""`, for both an unset main and an empty id.
- `ModuleGraph.Modules.Load`: the content a new module ends up with, and the located error of a failing parse, are stated on `AddNew` and `Register` but not carried up to `Load`.
- JavaScript prototype keys (`constructor`, `__proto__`) that would make `items[id]` or `cache[id]` truthy for an id never stored.
