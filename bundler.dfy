/** The text-building side of index.js: the entry path handed to `load`, the choice of
  * the handler file, the assembly of the bundle by `make`, and the routing of messages
  * by `message`. */
module Bundler {
  import opened Text
  import Paths
  import ModuleGraph

  /** `path.isAbsolute(file) || (file = path.join(options.cwd, file))`. */
  function EntryPath(file: string, cwd: string): (r: string)
    ensures Paths.IsAbsolute(file) ==> r == file
    ensures Paths.IsAbsolute(cwd) ==> Paths.IsAbsolute(r)
  {
    if Paths.IsAbsolute(file) then file else Paths.Join(cwd, file)
  }

  /** Making the entry path absolute a second time changes nothing. */
  lemma EntryPathIdempotent(file: string, cwd: string)
    requires Paths.IsAbsolute(cwd)
    ensures EntryPath(EntryPath(file, cwd), cwd) == EntryPath(file, cwd)
  {
    var once := EntryPath(file, cwd);
    assert Paths.IsAbsolute(once);
  }

  /** The module `make` loads the handler source from: a bare name is one of the bundled
    * handlers, an absolute path is taken as it is, any other path is relative to `cwd`.
    * The platform separator is `/`, so the two `indexOf` tests coincide. */
  function HandlerPath(handler: string, cwd: string): (r: string)
    ensures '/' !in handler ==> r == "./handlers/" + handler
    ensures Paths.IsAbsolute(handler) ==> r == handler
    ensures '/' in handler && Paths.IsAbsolute(cwd) ==> Paths.IsAbsolute(r)
  {
    if '/' in handler then
      (if Paths.IsAbsolute(handler) then handler else Paths.Join(cwd, handler))
    else "./handlers/" + handler
  }

  /** A bare handler name is looked up as a file of the `./handlers` directory. */
  lemma BareHandlerInHandlersDir(handler: string, cwd: string)
    requires '/' !in handler
    ensures Paths.Parse(HandlerPath(handler, cwd)).dir == "./handlers"
    ensures Paths.Parse(HandlerPath(handler, cwd)).name + Paths.Parse(HandlerPath(handler, cwd)).ext == handler
  {
    var r := HandlerPath(handler, cwd);
    var slash := Paths.LastIndexOf(r, '/');
    assert r[10] == '/';
    forall k | 10 < k < |r| ensures r[k] != '/' {
      assert r[k] == handler[k - 11];
    }
    assert slash == 10;
    assert r[slash + 1..] == handler;
    assert r[..slash] == "./handlers";
  }

  /** `item && '    ' + item`. */
  function IndentLine(line: string): string
  {
    if line == "" then "" else "    " + line
  }

  function IndentAll(lines: seq<string>): (r: seq<string>)
    ensures |r| == |lines|
    ensures forall k :: 0 <= k < |lines| ==> r[k] == IndentLine(lines[k])
  {
    seq(|lines|, k requires 0 <= k < |lines| => IndentLine(lines[k]))
  }

  /** The body of a module as it appears in its entry. */
  function Indent(content: string): string
  {
    JoinWith(IndentAll(Split(content, '\n')), "\n")
  }

  /** Indenting keeps the line count; a non-empty line gains exactly four spaces in front
    * and an empty line stays empty. */
  lemma IndentLines(content: string)
    ensures |Split(Indent(content), '\n')| == |Split(content, '\n')|
    ensures forall k :: 0 <= k < |Split(content, '\n')| ==>
      Split(Indent(content), '\n')[k] == if Split(content, '\n')[k] == "" then "" else "    " + Split(content, '\n')[k]
  {
    var lines := Split(content, '\n');
    var out := IndentAll(lines);
    forall k | 0 <= k < |out| ensures '\n' !in out[k] {
      if lines[k] != "" {
        assert out[k] == "    " + lines[k];
        assert forall i :: 0 <= i < |lines[k]| ==> out[k][4 + i] == lines[k][i];
      }
    }
    SplitJoin(out, '\n');
  }

  /** Takes the four spaces `IndentLine` adds back off. */
  function UnindentLine(line: string): string
  {
    if |line| >= 4 && line[..4] == "    " then line[4..] else line
  }

  function Unindent(text: string): string
  {
    var lines := Split(text, '\n');
    JoinWith(seq(|lines|, k requires 0 <= k < |lines| => UnindentLine(lines[k])), "\n")
  }

  /** Indentation loses nothing: removing it gives the module's content back. */
  lemma UnindentIndent(content: string)
    ensures Unindent(Indent(content)) == content
  {
    var lines := Split(content, '\n');
    var out := Split(Indent(content), '\n');
    IndentLines(content);
    var back := seq(|out|, k requires 0 <= k < |out| => UnindentLine(out[k]));
    forall k | 0 <= k < |lines| ensures back[k] == lines[k] {
      if lines[k] != "" {
        assert out[k][4..] == lines[k];
      }
    }
    assert back == lines;
    JoinSplit(content, '\n');
  }

  /** `'-'.repeat(n)`. */
  function Dashes(n: nat): (r: string)
    ensures |r| == n
    ensures forall i :: 0 <= i < n ==> r[i] == '-'
  {
    if n == 0 then "" else Dashes(n - 1) + "-"
  }

  /** The line between two entries. */
  const Separator: string := "  // " + Dashes(75) + "\n"

  /** The separator is a comment line of 81 characters: `  // `, 75 dashes, a newline. */
  lemma SeparatorShape()
    ensures |Separator| == 81
    ensures Separator[..5] == "  // " && Separator[80] == '\n'
    ensures forall i :: 5 <= i < 80 ==> Separator[i] == '-'
  {
    var d := Dashes(75);
    assert Separator == "  // " + d + "\n";
    forall i | 5 <= i < 80 ensures Separator[i] == '-' {
      assert Separator[i] == d[i - 5];
    }
  }

  /** The factory entry of module `id`. */
  function Entry(id: string, content: string): string
  {
    "  '" + id + "': function(exports, require, module) {\n" + Indent(content) + "\n  }"
  }

  /** The entries of the ids in `order`, with their contents from `contents`. */
  function Entries(order: seq<string>, contents: map<string, string>): (r: seq<string>)
    requires forall k :: 0 <= k < |order| ==> order[k] in contents
    ensures |r| == |order|
    ensures forall k :: 0 <= k < |order| ==> r[k] == Entry(order[k], contents[order[k]])
  {
    seq(|order|, k requires 0 <= k < |order| => Entry(order[k], contents[order[k]]))
  }

  lemma EntriesSnoc(order: seq<string>, id: string, contents: map<string, string>)
    requires forall k :: 0 <= k < |order| ==> order[k] in contents
    requires id in contents
    ensures Entries(order + [id], contents) == Entries(order, contents) + [Entry(id, contents[id])]
  {
    assert forall k :: 0 <= k < |order| ==> (order + [id])[k] == order[k];
  }

  /** The id written into the bundle: the template prints `undefined` while `main` is unset. */
  function MainText(main: string): string
  {
    if main == "" then "undefined" else main
  }

  /** The uncompressed bundle: the handler applied to `this`, the main id and the object of
    * factory entries, framed and separated by `Separator`. */
  function Compose(handler: string, main: string, entries: seq<string>): string
  {
    "(" + handler + "(this, '" + MainText(main) + "', {\n" + Separator
    + JoinWith(entries, ",\n" + Separator) + "\n" + Separator + "}));"
  }

  /** The content of every registered module. */
  ghost function Contents(items: map<string, ModuleGraph.Module>): (r: map<string, string>)
    reads set id | id in items :: items[id]
    ensures r.Keys == items.Keys
    ensures forall id :: id in items ==> r[id] == items[id].content
  {
    map id | id in items :: items[id].content
  }

  /** `make` without minification and output: one entry per registered id, in the order
    * the loop visits them (`order`, which the model does not fix), composed into the bundle. */
  method Make(handler: string, registry: ModuleGraph.Modules) returns (bundle: string, order: seq<string>)
    ensures forall k :: 0 <= k < |order| ==> order[k] in registry.items
    ensures forall i, j :: 0 <= i < j < |order| ==> order[i] != order[j]
    ensures forall id :: id in registry.items ==> id in order
    ensures bundle == Compose(handler, registry.main, Entries(order, Contents(registry.items)))
  {
    var wrapped: seq<string> := [];
    var keys := registry.items.Keys;
    order := [];
    ghost var contents := Contents(registry.items);
    while keys != {}
      invariant keys <= registry.items.Keys
      invariant forall k :: 0 <= k < |order| ==> order[k] in registry.items && order[k] !in keys
      invariant forall i, j :: 0 <= i < j < |order| ==> order[i] != order[j]
      invariant forall id :: id in registry.items ==> id in keys || id in order
      invariant wrapped == Entries(order, contents)
      decreases keys
    {
      var id :| id in keys;
      var content := Indent(registry.items[id].content);
      wrapped := wrapped + ["  '" + id + "': function(exports, require, module) {\n" + content + "\n  }"];
      EntriesSnoc(order, id, contents);
      order := order + [id];
      keys := keys - {id};
    }
    var separator := Separator;
    var source := JoinWith(wrapped, ",\n" + separator);
    bundle := "(" + handler + "(this, '" + MainText(registry.main) + "', {\n" + separator + source + "\n" + separator + "}));";
  }

  /** What `message` is given: an `Error` (its `name` and `message`) or a plain text. */
  datatype Message = Failure(name: string, text: string) | Notice(text: string)

  /** Where a message ends up. */
  datatype Delivery = Throw(error: Message) | Drop | ToError(line: string) | ToSuccess(line: string)

  /** `message(m)`: `time` is the clock prefix, `onError`/`onSuccess` whether the callbacks
    * are functions. Outside watch mode errors are thrown and notices dropped; in watch mode
    * errors go only to `onerror` and notices only to `onsuccess`, stamped with the time. */
  function Route(watch: bool, time: string, onError: bool, onSuccess: bool, m: Message): (r: Delivery)
    ensures r.Throw? <==> !watch && m.Failure?
    ensures r.Throw? ==> r.error == m
    ensures r.ToError? <==> watch && m.Failure? && onError
    ensures r.ToSuccess? <==> watch && m.Notice? && onSuccess
    ensures r.ToError? ==> r.line == time + " " + m.name + ": " + m.text
    ensures r.ToSuccess? ==> r.line == time + " " + m.text
  {
    if !watch then
      (if m.Failure? then Throw(m) else Drop)
    else if m.Failure? then
      (if onError then ToError(time + " " + m.name + ": " + m.text) else Drop)
    else if onSuccess then ToSuccess(time + " " + m.text)
    else Drop
  }
}
