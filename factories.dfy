/** What the runtime handlers see of a bundled module: its factory, written as the
  * sequence of steps it performs, and the exports objects those steps touch. */
module Factories {

  /** One step of a factory body. */
  datatype Step =
    /** `require(id)`. */
    | Require(id: string)
    /** `exports[key] = value`, on the `exports` argument the factory was called with. */
    | SetExport(key: string, value: string)
    /** `module.exports[key] = value`, on whatever object `module.exports` is now. */
    | SetModuleExport(key: string, value: string)
    /** `module.exports = {}`: the module's exports become a new empty object. */
    | ReplaceExports

  /** A factory: the steps its body runs, in order. */
  type Script = seq<Step>

  /** A JavaScript object, by its position in the store of objects created so far. */
  type Ref = nat

  /** The properties of one exports object. */
  type Props = map<string, string>

  /** The store after `{}` is evaluated once more: the new object is the last one. */
  function Allocate(store: seq<Props>): (r: (seq<Props>, Ref))
    ensures r.1 == |store| && |r.0| == |store| + 1
    ensures r.0[..|store|] == store && r.0[r.1] == map[]
  {
    (store + [map[]], |store|)
  }

  /** `o[key] = value` on the object at `o`; no other object changes. */
  function Assign(store: seq<Props>, o: Ref, key: string, value: string): (r: seq<Props>)
    requires o < |store|
    ensures |r| == |store|
    ensures r[o] == store[o][key := value]
    ensures forall p :: 0 <= p < |store| && p != o ==> r[p] == store[p]
  {
    store[o := store[o][key := value]]
  }

  /** A prefix of a prefix is a prefix: the call history a handler records only grows. */
  lemma PrefixOfPrefix(a: seq<string>, b: seq<string>, c: seq<string>)
    requires |a| <= |b| <= |c| && b[..|a|] == a && c[..|b|] == b
    ensures c[..|a|] == a
  {
    assert c[..|a|] == c[..|b|][..|a|];
  }
}
