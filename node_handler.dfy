/** handlers/node.js: the runtime that emulates Node's `module` and `require` objects.
  * Each id gets a `Module` record, cached before its factory runs; records keep their
  * `parent`, the `children` they required first, and whether their factory has returned. */
module NodeHandler {
  import opened Wrappers
  import opened Factories

  /** The handler's `Module`, held in the cache under its `id`: the id of its `parent`
    * (`None` for the main module), its `exports`, `loaded`, and the ids of its `children`. */
  datatype Record = Record(parent: Option<string>, exports: Ref, loaded: bool, children: seq<string>)

  /** No id occurs twice in `s`. */
  ghost predicate Distinct(s: seq<string>)
  {
    forall i, j :: 0 <= i < j < |s| ==> s[i] != s[j]
  }

  /** `calls` lists exactly the ids that are both `cached` and have a factory. */
  ghost predicate CalledExactly(calls: seq<string>, cached: set<string>, factories: set<string>)
  {
    (forall i :: 0 <= i < |calls| ==> calls[i] in cached && calls[i] in factories)
    && (forall id :: id in cached && id in factories ==> id in calls)
  }

  /** The `parent` of the record of `id`; `None` also for an id that is not cached. */
  function ParentOf(cache: map<string, Record>, id: string): Option<string>
  {
    if id in cache then cache[id].parent else None
  }

  /** The `children` of the record of `id`; none for an id that is not cached. */
  function ChildrenOf(cache: map<string, Record>, id: string): seq<string>
  {
    if id in cache then cache[id].children else []
  }

  /** Only `main` has no parent. */
  ghost predicate Rooted(cache: map<string, Record>, main: string)
  {
    forall id {:trigger ParentOf(cache, id)} :: id in cache ==> (ParentOf(cache, id).None? <==> id == main)
  }

  /** Every record's parent is cached and lists it among its children. */
  ghost predicate ParentsList(cache: map<string, Record>)
  {
    forall id {:trigger ParentOf(cache, id)} :: ParentOf(cache, id).Some? ==>
      ParentOf(cache, id).value in cache && id in ChildrenOf(cache, ParentOf(cache, id).value)
  }

  /** Every child is cached and names its parent. */
  ghost predicate ChildrenPoint(cache: map<string, Record>)
  {
    forall id, k {:trigger ChildrenOf(cache, id)[k]} :: 0 <= k < |ChildrenOf(cache, id)| ==>
      ChildrenOf(cache, id)[k] in cache && ParentOf(cache, ChildrenOf(cache, id)[k]) == Some(id)
  }

  /** No record lists a child twice. */
  ghost predicate ChildrenDistinct(cache: map<string, Record>)
  {
    forall id {:trigger ChildrenOf(cache, id)} :: Distinct(ChildrenOf(cache, id))
  }

  /** The parent links of a cache: the module tree that `module.parent` and
    * `module.children` describe. */
  ghost predicate Linked(cache: map<string, Record>, main: string)
  {
    Rooted(cache, main) && ParentsList(cache) && ChildrenPoint(cache) && ChildrenDistinct(cache)
  }

  /** The bookkeeping of a loader whose store holds `size` objects: every record's exports
    * are an object of the store; each factory was called at most once, exactly for the
    * cached ids that have one; the `running` ids are cached, and a record is `loaded`
    * exactly when it has a factory that is not running, that is, whose call has returned. */
  ghost predicate Consistent(cache: map<string, Record>, size: nat, calls: seq<string>, running: set<string>,
                             factories: set<string>)
  {
    (forall id :: id in cache ==> cache[id].exports < size)
    && Distinct(calls) && CalledExactly(calls, cache.Keys, factories) && running <= cache.Keys
    && (forall id :: id in cache ==> (cache[id].loaded <==> id in factories && id !in running))
  }

  /** `cache[id] = new Module(id, parent)`: the new record, with `exports` as its exports,
    * no children and not loaded, is cached and appended to the children of its parent;
    * every other record stays as it was. */
  function Adopt(cache: map<string, Record>, parent: Option<string>, id: string, exports: Ref): (r: map<string, Record>)
    requires id !in cache && (parent.Some? ==> parent.value in cache)
    ensures r.Keys == cache.Keys + {id}
    ensures r[id] == Record(parent, exports, false, [])
    ensures forall x :: x in cache && Some(x) != parent ==> r[x] == cache[x]
    ensures parent.Some? ==>
      r[parent.value] == cache[parent.value].(children := cache[parent.value].children + [id])
  {
    var added := cache[id := Record(parent, exports, false, [])];
    if parent.Some? then
      added[parent.value := cache[parent.value].(children := cache[parent.value].children + [id])]
    else added
  }

  class Loader {
    /** The `modules` argument: the factory of each id. */
    const modules: map<string, Script>
    /** The `main` argument. */
    const main: string
    /** `cache`: the record of every id required so far. */
    var cache: map<string, Record>
    /** Every object created so far. */
    var store: seq<Props>
    /** The ids whose factory has been called, in call order. */
    ghost var calls: seq<string>
    /** The ids whose factory has been called and has not returned yet. */
    ghost var running: set<string>

    /** The bookkeeping holds of the current state, and the records form the module tree
      * rooted at `main`. */
    ghost predicate Valid()
      reads this
    {
      Consistent(cache, |store|, calls, running, modules.Keys) && Linked(cache, main)
    }

    /** The ids whose factory has not been called. */
    function Unvisited(): set<string>
      reads this
    {
      modules.Keys - cache.Keys
    }

    /** Every cached id has a factory: no `require` has failed yet. */
    ghost predicate Complete()
      reads this
    {
      forall id :: id in cache ==> id in modules
    }

    /** `var cache = {};` */
    constructor (modules: map<string, Script>, main: string)
      ensures this.modules == modules && this.main == main
      ensures cache == map[] && store == [] && calls == [] && running == {}
      ensures Valid()
    {
      this.modules := modules;
      this.main := main;
      cache := map[];
      store := [];
      calls := [];
      running := {};
    }

    /** `Module.prototype.require` called on the record of `from`: on a hit, the cached
      * exports and no change at all; on a miss, a new record with parent `from` is cached,
      * appended to the children of `from`, and loaded. A missing factory is the `TypeError`
      * of `load`, reported here as `Err(id)`. Records cached before keep everything except
      * that `from` may gain one child. */
    method Require(from: string, id: string) returns (r: Result<Ref, string>)
      requires Valid() && main in cache && from in cache
      modifies this
      decreases Unvisited(), 2
      ensures Valid() && main in cache && |old(store)| <= |store|
      ensures forall x :: x in old(cache) && x != from ==> x in cache && cache[x] == old(cache[x])
      ensures from in cache && cache[from].parent == old(cache[from].parent)
      ensures cache[from].exports == old(cache[from].exports) && cache[from].loaded == old(cache[from].loaded)
      ensures |old(calls)| <= |calls| && calls[..|old(calls)|] == old(calls)
      ensures r.Ok? ==> running == old(running)
      ensures Unvisited() <= old(Unvisited())
      ensures id in old(cache) ==>
        r == Ok(old(cache[id].exports)) && cache == old(cache) && store == old(store) && calls == old(calls)
      ensures id !in old(cache) ==>
        id in cache && cache[id].parent == Some(from) && cache[from].children == old(cache[from].children) + [id]
      ensures id !in old(cache) && id in modules ==> |calls| > |old(calls)| && calls[|old(calls)|] == id
      ensures id !in old(cache) && id !in modules ==> r == Err(id)
      ensures id !in old(cache) && r.Ok? ==> cache[id].loaded && r.value == cache[id].exports
      ensures old(Complete()) && r.Ok? ==> Complete()
    {
      if id in cache {
        return Ok(cache[id].exports);
      }
      if id !in modules {
        Create(Some(from), id);
        return Err(id);
      }
      r := RequireNew(from, id);
    }

    /** The miss of `require` for an id that has a factory: the new module is cached
      * under `from`, its factory runs, and its exports are the result. */
    method RequireNew(from: string, id: string) returns (r: Result<Ref, string>)
      requires Valid() && main in cache && from in cache && id !in cache && id in modules
      modifies this
      decreases Unvisited(), 1
      ensures Valid() && main in cache && |old(store)| <= |store|
      ensures forall x :: x in old(cache) && x != from ==> x in cache && cache[x] == old(cache[x])
      ensures from in cache && cache[from].parent == old(cache[from].parent)
      ensures cache[from].exports == old(cache[from].exports) && cache[from].loaded == old(cache[from].loaded)
      ensures |old(calls)| <= |calls| && calls[..|old(calls)|] == old(calls)
      ensures r.Ok? ==> running == old(running)
      ensures Unvisited() <= old(Unvisited())
      ensures id in cache && cache[id].parent == Some(from) && cache[from].children == old(cache[from].children) + [id]
      ensures |calls| > |old(calls)| && calls[|old(calls)|] == id
      ensures r.Ok? ==> cache[id].loaded && r.value == cache[id].exports
      ensures old(Complete()) && r.Ok? ==> Complete()
    {
      Create(Some(from), id);
      assert id in old(Unvisited()) && id !in Unvisited();
      ghost var called := calls;
      ghost var adopted := cache;
      assert adopted[from] == old(cache[from]).(children := old(cache[from].children) + [id]);
      var outcome := Load(id);
      assert from != id && cache[from] == adopted[from];
      forall x | x in old(cache) && x != from ensures x in cache && cache[x] == old(cache[x]) {
        assert x != id && adopted[x] == old(cache[x]);
      }
      PrefixOfPrefix(old(calls), called, calls);
      assert calls[|old(calls)|] == called[|old(calls)|] == id;
      if outcome.Fail? {
        return Err(outcome.error);
      }
      return Ok(cache[id].exports);
    }

    /** `cache[id] = new Module(id, parent)`, with the new `{}` as its exports. When `id`
      * has a factory, its call, about to happen, is recorded in `calls` and `running`. */
    method Create(parent: Option<string>, id: string)
      requires Valid() && id !in cache && (parent.Some? ==> parent.value in cache)
      requires parent.None? <==> id == main
      modifies this
      ensures Valid() && store == old(store) + [map[]]
      ensures cache == Adopt(old(cache), parent, id, |old(store)|)
      ensures calls == (if id in modules then old(calls) + [id] else old(calls))
      ensures running == (if id in modules then old(running) + {id} else old(running))
    {
      var created := Allocate(store);
      store := created.0;
      cache := Adopt(cache, parent, id, created.1);
      if id in modules {
        calls := calls + [id];
        running := running + {id};
      }
      AdoptConsistent(old(cache), |old(store)|, old(calls), old(running), modules.Keys, parent, id);
      AdoptLinked(old(cache), main, parent, id, |old(store)|);
    }

    /** `module.loaded = true` once the factory of `id`, a running one, has
      * returned. */
    method Finish(id: string)
      requires Valid() && id in cache && id in modules
      requires id in running
      modifies this
      ensures Valid() && running == old(running) - {id}
      ensures cache == old(cache)[id := old(cache[id]).(loaded := true)]
      ensures store == old(store) && calls == old(calls)
    {
      FinishConsistent(cache, |store|, calls, running, modules.Keys, id);
      UpdateLinked(cache, main, id, cache[id].exports, true);
      running := running - {id};
      cache := cache[id := cache[id].(loaded := true)];
    }

    /** `o[key] = value`, on an object of the store. */
    method SetProperty(o: Ref, key: string, value: string)
      requires Valid() && o < |store|
      modifies this
      ensures Valid() && store == Assign(old(store), o, key, value)
      ensures cache == old(cache) && calls == old(calls) && running == old(running)
    {
      store := Assign(store, o, key, value);
    }

    /** `module.exports = {}`: the record of `id` gets a new empty exports object. */
    method ReplaceExports(id: string)
      requires Valid() && id in cache
      modifies this
      ensures Valid() && store == old(store) + [map[]]
      ensures cache == old(cache)[id := old(cache[id]).(exports := |old(store)|)]
      ensures calls == old(calls) && running == old(running)
    {
      var created := Allocate(store);
      ExportsConsistent(cache, |store|, calls, running, modules.Keys, id, created.1, |created.0|);
      UpdateLinked(cache, main, id, created.1, cache[id].loaded);
      store := created.0;
      cache := cache[id := cache[id].(exports := created.1)];
    }

    /** `load(module)` for the record of `id`: its factory runs while it is not loaded, and
      * `loaded` turns true once it returns. `require.main` is the main record, which is
      * cached. The caller has recorded the call about to happen: `id` is the last of `calls`
      * and is running. */
    method Load(id: string) returns (r: Outcome<string>)
      requires Valid() && main in cache && id in cache
      requires id in modules ==>
        |calls| > 0 && calls[|calls| - 1] == id && id in running
      modifies this
      decreases Unvisited(), if id in modules then 4 else 0
      ensures Valid() && main in cache && |old(store)| <= |store|
      ensures forall x :: x in old(cache) && x != id ==> x in cache && cache[x] == old(cache[x])
      ensures id in cache && cache[id].parent == old(cache[id].parent)
      ensures |old(calls)| <= |calls| && calls[..|old(calls)|] == old(calls)
      ensures r.Pass? ==> id in modules && running == old(running) - {id} && cache[id].loaded
      ensures Unvisited() <= old(Unvisited())
      ensures id !in modules ==> r == Fail(id) && cache == old(cache) && store == old(store) && calls == old(calls)
      ensures old(Complete()) && r.Pass? ==> Complete()
    {
      if id !in modules {
        return Fail(id);
      }
      r := RunFactory(id);
      if r.Pass? {
        Finish(id);
      }
    }

    /** `modules[module.id].call(global, module.exports, require, module)`, with `require`
      * bound to the record of `id`: each step of the factory in turn, stopping at the first
      * failure. `exports` stays the object the record held when the call began. */
    method RunFactory(id: string) returns (r: Outcome<string>)
      requires Valid() && main in cache && id in cache && id in modules && id in calls && id in running
      modifies this
      decreases Unvisited(), 3
      ensures Valid() && main in cache && |old(store)| <= |store|
      ensures forall x :: x in old(cache) && x != id ==> x in cache && cache[x] == old(cache[x])
      ensures id in cache && cache[id].parent == old(cache[id].parent) && cache[id].loaded == old(cache[id].loaded)
      ensures |old(calls)| <= |calls| && calls[..|old(calls)|] == old(calls)
      ensures r.Pass? ==> running == old(running)
      ensures Unvisited() <= old(Unvisited())
      ensures old(Complete()) && r.Pass? ==> Complete()
    {
      var exports := cache[id].exports;
      var script := modules[id];
      var k := 0;
      while k < |script|
        invariant 0 <= k <= |script|
        invariant Valid() && main in cache && id in cache && exports < |store| && |old(store)| <= |store|
        invariant id in calls && running == old(running)
        invariant forall x :: x in old(cache) && x != id ==> x in cache && cache[x] == old(cache[x])
        invariant cache[id].parent == old(cache[id].parent) && cache[id].loaded == old(cache[id].loaded)
        invariant |old(calls)| <= |calls| && calls[..|old(calls)|] == old(calls)
        invariant Unvisited() <= old(Unvisited())
        invariant old(Complete()) ==> Complete()
      {
        match script[k] {
          case Require(x) =>
            ghost var before := calls;
            var got := Require(id, x);
            PrefixOfPrefix(old(calls), before, calls);
            if got.Err? {
              return Fail(got.error);
            }
          case SetExport(key, value) =>
            SetProperty(exports, key, value);
          case SetModuleExport(key, value) =>
            SetProperty(cache[id].exports, key, value);
          case ReplaceExports =>
            ReplaceExports(id);
        }
        k := k + 1;
      }
      return Pass;
    }

    /** `load(cache[main] = new Module(main, null))`. */
    method Start() returns (r: Outcome<string>)
      requires Valid() && cache == map[] && calls == [] && running == {}
      modifies this
      ensures Valid() && main in cache && cache[main].parent == None
      ensures main in modules ==> |calls| > 0 && calls[0] == main
      ensures main !in modules ==> r == Fail(main)
      ensures r.Pass? ==> running == {} && Complete() && cache[main].loaded
    {
      Create(None, main);
      r := Load(main);
    }
  }

  /** Recording the call of a new id keeps the call bookkeeping. */
  lemma CallsAfterCreate(calls: seq<string>, cached: set<string>, factories: set<string>, id: string)
    requires Distinct(calls) && CalledExactly(calls, cached, factories)
    requires id !in cached
    ensures id !in calls
    ensures id in factories ==> Distinct(calls + [id]) && CalledExactly(calls + [id], cached + {id}, factories)
    ensures id !in factories ==> CalledExactly(calls, cached + {id}, factories)
  {
    if id in factories {
      var after := calls + [id];
      forall x | x in cached + {id} && x in factories ensures x in after {
        if x != id {
          var i :| 0 <= i < |calls| && calls[i] == x;
          assert after[i] == x;
        }
      }
    }
  }

  /** Caching a new record whose exports are the newest object, and recording the call of
    * its factory when there is one, keeps the bookkeeping. */
  lemma AdoptConsistent(cache: map<string, Record>, size: nat, calls: seq<string>, running: set<string>,
                        factories: set<string>, parent: Option<string>, id: string)
    requires Consistent(cache, size, calls, running, factories)
    requires id !in cache && (parent.Some? ==> parent.value in cache)
    ensures Consistent(Adopt(cache, parent, id, size), size + 1,
      if id in factories then calls + [id] else calls,
      if id in factories then running + {id} else running, factories)
  {
    var after := Adopt(cache, parent, id, size);
    var running' := if id in factories then running + {id} else running;
    CallsAfterCreate(calls, cache.Keys, factories, id);
    forall x | x in after
      ensures after[x].exports < size + 1
      ensures after[x].loaded <==> x in factories && x !in running'
    {
      if x != id {
        assert after[x].exports == cache[x].exports && after[x].loaded == cache[x].loaded;
      }
    }
  }

  /** Marking a running record loaded as its factory returns keeps the bookkeeping. */
  lemma FinishConsistent(cache: map<string, Record>, size: nat, calls: seq<string>, running: set<string>,
                         factories: set<string>, id: string)
    requires Consistent(cache, size, calls, running, factories) && id in cache && id in factories
    requires id in running
    ensures Consistent(cache[id := cache[id].(loaded := true)], size, calls, running - {id}, factories)
  {
    var after := cache[id := cache[id].(loaded := true)];
    assert after.Keys == cache.Keys;
  }

  /** Pointing a record at an object of a store that has grown keeps the bookkeeping. */
  lemma ExportsConsistent(cache: map<string, Record>, size: nat, calls: seq<string>, running: set<string>,
                          factories: set<string>, id: string, exports: Ref, size': nat)
    requires Consistent(cache, size, calls, running, factories) && id in cache
    requires size <= size' && exports < size'
    ensures Consistent(cache[id := cache[id].(exports := exports)], size', calls, running, factories)
  {
    assert cache[id := cache[id].(exports := exports)].Keys == cache.Keys;
  }

  /** The links after `Adopt`: only the new record and its parent's children change. */
  lemma AdoptLinks(cache: map<string, Record>, parent: Option<string>, id: string, exports: Ref)
    requires id !in cache && (parent.Some? ==> parent.value in cache)
    ensures forall x {:trigger ParentOf(Adopt(cache, parent, id, exports), x)} ::
      ParentOf(Adopt(cache, parent, id, exports), x) == if x == id then parent else ParentOf(cache, x)
    ensures forall x {:trigger ChildrenOf(Adopt(cache, parent, id, exports), x)} ::
      ChildrenOf(Adopt(cache, parent, id, exports), x) ==
        if Some(x) == parent then ChildrenOf(cache, x) + [id] else if x == id then [] else ChildrenOf(cache, x)
  {
  }

  /** Adopting a new record keeps a cache linked: the new record names its parent and is
    * the last of the parent's children. */
  lemma AdoptLinked(cache: map<string, Record>, main: string, parent: Option<string>, id: string, exports: Ref)
    requires Linked(cache, main) && id !in cache && (parent.None? <==> id == main)
    requires parent.Some? ==> parent.value in cache
    ensures Linked(Adopt(cache, parent, id, exports), main)
  {
    AdoptRooted(cache, main, parent, id, exports);
    AdoptParentsList(cache, parent, id, exports);
    AdoptChildrenPoint(cache, parent, id, exports);
    AdoptChildrenDistinct(cache, parent, id, exports);
  }

  lemma AdoptRooted(cache: map<string, Record>, main: string, parent: Option<string>, id: string, exports: Ref)
    requires Rooted(cache, main) && id !in cache && (parent.None? <==> id == main)
    requires parent.Some? ==> parent.value in cache
    ensures Rooted(Adopt(cache, parent, id, exports), main)
  {
    var after := Adopt(cache, parent, id, exports);
    AdoptLinks(cache, parent, id, exports);
    forall x | x in after ensures ParentOf(after, x).None? <==> x == main {
      if x != id {
        assert ParentOf(after, x) == ParentOf(cache, x);
      }
    }
  }

  lemma AdoptParentsList(cache: map<string, Record>, parent: Option<string>, id: string, exports: Ref)
    requires ParentsList(cache) && id !in cache
    requires parent.Some? ==> parent.value in cache
    ensures ParentsList(Adopt(cache, parent, id, exports))
  {
    var after := Adopt(cache, parent, id, exports);
    AdoptLinks(cache, parent, id, exports);
    forall x | ParentOf(after, x).Some?
      ensures ParentOf(after, x).value in after && x in ChildrenOf(after, ParentOf(after, x).value)
    {
      var p := ParentOf(after, x).value;
      if x == id {
        assert ChildrenOf(after, p) == ChildrenOf(cache, p) + [id];
        assert ChildrenOf(after, p)[|ChildrenOf(cache, p)|] == id;
      } else {
        assert ParentOf(cache, x) == Some(p);
        assert x in ChildrenOf(cache, p);
        var i :| 0 <= i < |ChildrenOf(cache, p)| && ChildrenOf(cache, p)[i] == x;
        assert ChildrenOf(after, p)[i] == x;
      }
    }
  }

  lemma AdoptChildrenPoint(cache: map<string, Record>, parent: Option<string>, id: string, exports: Ref)
    requires ChildrenPoint(cache) && id !in cache
    requires parent.Some? ==> parent.value in cache
    ensures ChildrenPoint(Adopt(cache, parent, id, exports))
  {
    var after := Adopt(cache, parent, id, exports);
    AdoptLinks(cache, parent, id, exports);
    forall x, k | 0 <= k < |ChildrenOf(after, x)|
      ensures ChildrenOf(after, x)[k] in after && ParentOf(after, ChildrenOf(after, x)[k]) == Some(x)
    {
      var c := ChildrenOf(after, x)[k];
      if Some(x) == parent && k == |ChildrenOf(cache, x)| {
        assert c == id;
      } else {
        assert c == ChildrenOf(cache, x)[k];
        assert c in cache && ParentOf(cache, c) == Some(x);
      }
    }
  }

  lemma AdoptChildrenDistinct(cache: map<string, Record>, parent: Option<string>, id: string, exports: Ref)
    requires ChildrenPoint(cache) && ChildrenDistinct(cache) && id !in cache
    requires parent.Some? ==> parent.value in cache
    ensures ChildrenDistinct(Adopt(cache, parent, id, exports))
  {
    var after := Adopt(cache, parent, id, exports);
    AdoptLinks(cache, parent, id, exports);
    forall x ensures Distinct(ChildrenOf(after, x)) {
      var kids := ChildrenOf(cache, x);
      assert Distinct(kids);
      if Some(x) == parent {
        forall k | 0 <= k < |kids| ensures kids[k] != id {
          assert kids[k] in cache;
        }
        assert ChildrenOf(after, x) == kids + [id];
      }
    }
  }

  /** Setting the exports or the `loaded` flag of a record keeps a cache linked. */
  lemma UpdateLinked(cache: map<string, Record>, main: string, id: string, exports: Ref, loaded: bool)
    requires Linked(cache, main) && id in cache
    ensures Linked(cache[id := cache[id].(exports := exports, loaded := loaded)], main)
  {
    var after := cache[id := cache[id].(exports := exports, loaded := loaded)];
    assert forall x {:trigger ParentOf(after, x)} :: ParentOf(after, x) == ParentOf(cache, x);
    assert forall x {:trigger ChildrenOf(after, x)} :: ChildrenOf(after, x) == ChildrenOf(cache, x);
  }

  /** The handler itself. When it succeeds, the main module's factory ran first, every
    * cached record is loaded, and each of them had its factory called exactly once. */
  method Boot(modules: map<string, Script>, main: string) returns (loader: Loader, r: Outcome<string>)
    ensures fresh(loader) && loader.modules == modules && loader.main == main && loader.Valid()
    ensures main in loader.cache && loader.cache[main].parent == None
    ensures main in modules ==> |loader.calls| > 0 && loader.calls[0] == main
    ensures main !in modules ==> r == Fail(main)
    ensures r.Pass? ==> forall id :: id in loader.cache ==> loader.cache[id].loaded && id in loader.calls
  {
    loader := new Loader(modules, main);
    r := loader.Start();
  }
}
