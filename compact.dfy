/** handlers/compact.js: the runtime prepended to a bundle by default. It keeps one cache
  * entry `{exports: {}}` per id, creates it before calling the id's factory, and answers
  * every `require` with the entry's current exports. */
module Compact {
  import opened Wrappers
  import opened Factories

  class Loader {
    /** The `modules` argument: the factory of each id. */
    const modules: map<string, Script>
    /** `cache[id].exports`, for every id with an entry. */
    var cache: map<string, Ref>
    /** Every object created so far. */
    var store: seq<Props>
    /** The ids whose factory has been called, in call order. */
    ghost var calls: seq<string>

    /** Entries point into the store; each factory was called at most once, and exactly the
      * ids with both an entry and a factory have been called. */
    ghost predicate Valid()
      reads this
    {
      (forall id :: id in cache ==> cache[id] < |store|)
      && (forall i, j :: 0 <= i < j < |calls| ==> calls[i] != calls[j])
      && (forall i :: 0 <= i < |calls| ==> calls[i] in cache && calls[i] in modules)
      && (forall id :: id in cache && id in modules ==> id in calls)
    }

    /** Every entry has a factory: no `require` has failed yet. */
    ghost predicate Complete()
      reads this
    {
      forall id :: id in cache ==> id in modules
    }

    /** The ids whose factory has not been called; the recursion of `require` ends because
      * each call that runs a factory removes one of them. */
    function Unvisited(): set<string>
      reads this
    {
      modules.Keys - cache.Keys
    }

    /** `var cache = {};` */
    constructor (modules: map<string, Script>)
      ensures this.modules == modules
      ensures cache == map[] && store == [] && calls == []
      ensures Valid() && Complete()
    {
      this.modules := modules;
      cache := map[];
      store := [];
      calls := [];
    }

    /** `require(id)`: on a hit, the entry's exports and nothing else happens (also for an
      * id whose factory is still running); on a miss, a fresh entry is cached, then the
      * factory is called once with that entry. A missing factory is the `TypeError` of
      * `modules[id].call`, reported here as `Err(id)`. */
    method Require(id: string) returns (r: Result<Ref, string>)
      requires Valid()
      modifies this
      decreases Unvisited(), 2
      ensures Valid()
      ensures forall x :: x in old(cache) ==> x in cache && cache[x] == old(cache[x])
      ensures |old(store)| <= |store| && |old(calls)| <= |calls| && calls[..|old(calls)|] == old(calls)
      ensures Unvisited() <= old(Unvisited())
      ensures id in cache
      ensures r.Ok? ==> r.value == cache[id]
      ensures id in old(cache) ==>
        r == Ok(old(cache[id])) && cache == old(cache) && store == old(store) && calls == old(calls)
      ensures id !in old(cache) && id in modules ==> |calls| > |old(calls)| && calls[|old(calls)|] == id
      ensures id !in old(cache) && id !in modules ==> r == Err(id) && calls == old(calls)
      ensures old(Complete()) && r.Ok? ==> Complete()
    {
      if id in cache {
        return Ok(cache[id]);
      }
      if id !in modules {
        var _ := Create(id);
        return Err(id);
      }
      r := RequireNew(id);
    }

    /** The miss of `require` for an id that has a factory: the entry is created, then the
      * factory is called with it. */
    method RequireNew(id: string) returns (r: Result<Ref, string>)
      requires Valid() && id !in cache && id in modules
      modifies this
      decreases Unvisited(), 1
      ensures Valid()
      ensures forall x :: x in old(cache) ==> x in cache && cache[x] == old(cache[x])
      ensures |old(store)| <= |store| && |old(calls)| <= |calls| && calls[..|old(calls)|] == old(calls)
      ensures Unvisited() <= old(Unvisited())
      ensures id in cache
      ensures r.Ok? ==> r.value == cache[id]
      ensures |calls| > |old(calls)| && calls[|old(calls)|] == id
      ensures old(Complete()) && r.Ok? ==> Complete()
    {
      var entry := Create(id);
      assert id in old(Unvisited()) && id !in Unvisited();
      ghost var called := calls;
      var outcome := RunFactory(id, entry);
      PrefixOfPrefix(old(calls), called, calls);
      assert calls[|old(calls)|] == called[|old(calls)|] == id;
      if outcome.Fail? {
        return Err(outcome.error);
      }
      r := Ok(cache[id]);
    }

    /** `cache[id] = {exports: {}}`: a new entry holding a new empty object. When `id` has a
      * factory, its call, about to happen, is recorded in `calls`. */
    method Create(id: string) returns (entry: Ref)
      requires Valid() && id !in cache
      modifies this
      ensures Valid() && entry == |old(store)| && store == old(store) + [map[]]
      ensures cache == old(cache)[id := entry]
      ensures calls == (if id in modules then old(calls) + [id] else old(calls))
    {
      var created := Allocate(store);
      store := created.0;
      entry := created.1;
      cache := cache[id := entry];
      if id in modules {
        calls := calls + [id];
      }
    }

    /** `modules[id].call(global, cache[id].exports, require, cache[id])`: the steps of the
      * factory, with `exports` the object the entry held when the call began. */
    method RunFactory(id: string, exports: Ref) returns (r: Outcome<string>)
      requires Valid() && id in cache && id in modules && exports < |store|
      requires |calls| > 0 && calls[|calls| - 1] == id
      modifies this
      decreases Unvisited(), 3
      ensures Valid()
      ensures forall x :: x in old(cache) ==> x in cache && (x != id ==> cache[x] == old(cache[x]))
      ensures |old(store)| <= |store| && |old(calls)| <= |calls| && calls[..|old(calls)|] == old(calls)
      ensures Unvisited() <= old(Unvisited())
      ensures old(Complete()) && r.Pass? ==> Complete()
    {
      var script := modules[id];
      var k := 0;
      while k < |script|
        invariant 0 <= k <= |script|
        invariant Valid() && id in cache && exports < |store|
        invariant forall x :: x in old(cache) ==> x in cache && (x != id ==> cache[x] == old(cache[x]))
        invariant |old(store)| <= |store| && |old(calls)| <= |calls| && calls[..|old(calls)|] == old(calls)
        invariant Unvisited() <= old(Unvisited())
        invariant old(Complete()) ==> Complete()
      {
        match script[k] {
          case Require(x) =>
            ghost var before := calls;
            var got := Require(x);
            PrefixOfPrefix(old(calls), before, calls);
            if got.Err? {
              return Fail(got.error);
            }
          case SetExport(key, value) =>
            SetProperty(exports, key, value);
          case SetModuleExport(key, value) =>
            SetProperty(cache[id], key, value);
          case ReplaceExports =>
            ReplaceExports(id);
        }
        k := k + 1;
      }
      return Pass;
    }

    /** `o[key] = value`, on an object of the store. */
    method SetProperty(o: Ref, key: string, value: string)
      requires Valid() && o < |store|
      modifies this
      ensures Valid() && store == Assign(old(store), o, key, value)
      ensures cache == old(cache) && calls == old(calls)
    {
      store := Assign(store, o, key, value);
    }

    /** `module.exports = {}`: the entry of `id` gets a new empty exports object. */
    method ReplaceExports(id: string)
      requires Valid() && id in cache
      modifies this
      ensures Valid() && store == old(store) + [map[]]
      ensures cache == old(cache)[id := |old(store)|] && calls == old(calls)
    {
      var created := Allocate(store);
      store := created.0;
      cache := cache[id := created.1];
    }
  }

  /** The handler itself: a new cache, then `require(main)`. When it succeeds, the main
    * module's factory was the first one called, and every cached id had its factory
    * called exactly once. */
  method Boot(modules: map<string, Script>, main: string) returns (loader: Loader, r: Result<Ref, string>)
    ensures fresh(loader) && loader.modules == modules && loader.Valid()
    ensures main in modules ==> |loader.calls| > 0 && loader.calls[0] == main
    ensures main !in modules ==> r == Err(main) && loader.calls == []
    ensures r.Ok? ==> r.value == loader.cache[main]
    ensures r.Ok? ==> forall id :: id in loader.cache <==> id in loader.calls
  {
    loader := new Loader(modules);
    r := loader.Require(main);
  }
}
