/**
 * Recursive merge of nested mappings (`merge_lhs_dict_into_rhs`).
 *
 * A nested mapping has string keys; each value is either a scalar leaf or
 * another nested mapping. Merging `source` into `destination` walks the
 * keys of `source`: a mapping-valued entry is merged recursively into the
 * destination's entry under the same key (a new empty mapping is created
 * there when the key is absent), any other entry overwrites the
 * destination's entry. The destination is changed in place and returned.
 */
module DataStructures {

  import opened Wrappers

  /** A value stored under a key: a scalar leaf or a nested mapping. */
  datatype Value = Scalar(s: string) | Dict(m: map<string, Value>)

  type Mapping = map<string, Value>

  /** The node `destination.setdefault(key, {})` hands to the recursive call. */
  function NodeFor(d: Mapping, k: string): Value
  {
    if k in d then d[k] else Dict(map[])
  }

  /**
   * Merging `s` into `d` runs to completion: it never has to descend into a
   * scalar of the destination with a source mapping that holds entries (the
   * source then calls `setdefault` or item assignment on a non-mapping and
   * raises). A scalar met by an EMPTY source mapping is left alone.
   */
  predicate Compatible(s: Value, d: Value)
    decreases s
  {
    match s
    case Scalar(_) => true
    case Dict(sm) =>
      match d
      case Scalar(_) => sm == map[]
      case Dict(dm) => forall k | k in sm :: Compatible(sm[k], NodeFor(dm, k))
  }

  predicate Mergeable(source: Mapping, destination: Mapping) {
    Compatible(Dict(source), Dict(destination))
  }

  /** The value found under `d` after merging `s` into it. */
  function MergeValue(s: Value, d: Value): (r: Value)
    requires Compatible(s, d)
    // the result is a leaf exactly when either side is one ...
    ensures r.Scalar? <==> s.Scalar? || d.Scalar?
    // ... and then a leaf of the source overwrites, while one of the destination is kept
    ensures s.Scalar? ==> r == s
    ensures s.Dict? && d.Scalar? ==> r == d
    // a merged mapping holds the keys of both sides and no other
    ensures r.Dict? ==> r.m.Keys == s.m.Keys + d.m.Keys
    decreases s
  {
    match s
    case Scalar(_) => s
    case Dict(sm) =>
      match d
      case Scalar(_) => d
      case Dict(dm) =>
        Dict(map k | k in sm.Keys + dm.Keys ::
               if k in sm then MergeValue(sm[k], NodeFor(dm, k)) else dm[k])
  }

  /** The destination mapping after `merge_lhs_dict_into_rhs(source, destination)`. */
  function Merge(source: Mapping, destination: Mapping): (r: Mapping)
    requires Mergeable(source, destination)
    // every key of either side is present afterwards, and no other key
    ensures r.Keys == source.Keys + destination.Keys
    // keys the source does not mention keep their value
    ensures forall k | k in destination && k !in source :: r[k] == destination[k]
    // a scalar of the source overwrites whatever the destination held
    ensures forall k | k in source && source[k].Scalar? :: r[k] == source[k]
    // a source mapping under a key the destination lacks is copied as it is
    ensures forall k | k in source && source[k].Dict? && k !in destination :: r[k] == source[k]
    // a destination scalar under an (empty) source mapping is kept
    ensures forall k | k in source && source[k].Dict? && k in destination && destination[k].Scalar? ::
              r[k] == destination[k]
    // two mappings under the same key are merged recursively
    ensures forall k | k in source && source[k].Dict? && k in destination && destination[k].Dict? ::
              Mergeable(source[k].m, destination[k].m) &&
              r[k] == Dict(Merge(source[k].m, destination[k].m))
    decreases Dict(source)
  {
    var r := MergeValue(Dict(source), Dict(destination)).m;
    assert forall k | k in source :: r[k] == MergeValue(source[k], NodeFor(destination, k));
    forall k | k in source && source[k].Dict? && k !in destination
      ensures MergeValue(source[k], Dict(map[])) == source[k]
    {
      MergeIntoEmpty(source[k]);
    }
    r
  }

  /** Merging into a freshly created empty mapping reproduces the source. */
  lemma {:induction false} MergeIntoEmpty(s: Value)
    ensures Compatible(s, Dict(map[]))
    ensures MergeValue(s, Dict(map[])) == s
    decreases s
  {
    match s
    case Scalar(_) =>
    case Dict(sm) =>
      forall k | k in sm
        ensures Compatible(sm[k], NodeFor(map[], k))
        ensures MergeValue(sm[k], NodeFor(map[], k)) == sm[k]
      {
        MergeIntoEmpty(sm[k]);
      }
      var r := MergeValue(s, Dict(map[]));
      assert r.m.Keys == sm.Keys;
      assert forall k | k in sm :: r.m[k] == sm[k];
  }

  /** Merging an empty source leaves the destination as it was. */
  lemma MergeEmptySource(destination: Mapping)
    ensures Mergeable(map[], destination)
    ensures Merge(map[], destination) == destination
  {
  }

  /** Merging the same source a second time changes nothing more. */
  lemma {:induction false} MergeIdempotent(s: Value, d: Value)
    requires Compatible(s, d)
    ensures Compatible(s, MergeValue(s, d))
    ensures MergeValue(s, MergeValue(s, d)) == MergeValue(s, d)
    decreases s
  {
    match s
    case Scalar(_) =>
    case Dict(sm) =>
      match d
      case Scalar(_) =>
      case Dict(dm) =>
        var once := MergeValue(s, d);
        forall k | k in sm
          ensures NodeFor(once.m, k) == MergeValue(sm[k], NodeFor(dm, k))
          ensures Compatible(sm[k], NodeFor(once.m, k))
          ensures MergeValue(sm[k], NodeFor(once.m, k)) == NodeFor(once.m, k)
        {
          MergeIdempotent(sm[k], NodeFor(dm, k));
        }
        var twice := MergeValue(s, once);
        assert twice.m.Keys == once.m.Keys;
        assert forall k | k in once.m :: twice.m[k] == once.m[k];
  }

  /** The value reached by following `path` key by key from `v`. */
  function Lookup(v: Value, path: seq<string>): Option<Value>
    decreases |path|
  {
    if path == [] then Some(v)
    else match v
      case Scalar(_) => None
      case Dict(m) => if path[0] in m then Lookup(m[path[0]], path[1..]) else None
  }

  /** Following `path` through `v` meets a scalar, at the end or before it. */
  predicate ScalarOnPath(v: Value, path: seq<string>)
    decreases |path|
  {
    match v
    case Scalar(_) => true
    case Dict(m) => path != [] && path[0] in m && ScalarOnPath(m[path[0]], path[1..])
  }

  /**
   * At `path`, the source holds a mapping with entries while the destination
   * holds a scalar: the recursive call there has items to merge into a
   * non-mapping.
   */
  predicate Clash(s: Value, d: Value, path: seq<string>)
  {
    && Lookup(s, path).Some? && Lookup(s, path).value.Dict? && Lookup(s, path).value.m != map[]
    && Lookup(d, path).Some? && Lookup(d, path).value.Scalar?
  }

  /** The merge can go through only where no path leads to a clash. */
  lemma {:induction false} CompatibleHasNoClash(s: Value, d: Value, path: seq<string>)
    requires Compatible(s, d)
    ensures !Clash(s, d, path)
    decreases |path|
  {
    if path != [] && s.Dict? && d.Dict? {
      var k := path[0];
      if k in s.m && k in d.m {
        CompatibleHasNoClash(s.m[k], d.m[k], path[1..]);
      }
    }
  }

  /** Where the merge cannot go through, some path leads to a clash. */
  lemma {:induction false} IncompatibleHasClash(s: Value, d: Value) returns (path: seq<string>)
    requires !Compatible(s, d)
    ensures Clash(s, d, path)
    decreases s
  {
    match d
    case Scalar(_) =>
      path := [];
    case Dict(dm) =>
      var k :| k in s.m && !Compatible(s.m[k], NodeFor(dm, k));
      if k !in dm {
        MergeIntoEmpty(s.m[k]);
      }
      var rest := IncompatibleHasClash(s.m[k], dm[k]);
      path := [k] + rest;
      assert path[1..] == rest;
  }

  /**
   * Merging `s` into `d` goes through exactly when no path leads from both
   * to a non-empty source mapping over a destination scalar.
   */
  lemma CompatibleIffNoClash(s: Value, d: Value)
    ensures Compatible(s, d) <==> forall path :: !Clash(s, d, path)
  {
    if Compatible(s, d) {
      forall path ensures !Clash(s, d, path) {
        CompatibleHasNoClash(s, d, path);
      }
    } else {
      var path := IncompatibleHasClash(s, d);
    }
  }

  /** Every scalar leaf of the source is found at the same path in the result. */
  lemma {:induction false} SourceLeafWins(s: Value, d: Value, path: seq<string>, x: string)
    requires Compatible(s, d)
    requires Lookup(s, path) == Some(Scalar(x))
    ensures Lookup(MergeValue(s, d), path) == Some(Scalar(x))
    decreases |path|
  {
    if path != [] {
      var k := path[0];
      SourceLeafWins(s.m[k], NodeFor(d.m, k), path[1..], x);
    }
  }

  /**
   * A scalar leaf of the destination survives unless the source meets a
   * scalar on the way to it (which then overwrites it or an ancestor).
   */
  lemma {:induction false} DestinationLeafKept(s: Value, d: Value, path: seq<string>, x: string)
    requires Compatible(s, d)
    requires Lookup(d, path) == Some(Scalar(x))
    requires !ScalarOnPath(s, path)
    ensures Lookup(MergeValue(s, d), path) == Some(Scalar(x))
    decreases |path|
  {
    if path != [] {
      var k := path[0];
      if k in s.m {
        DestinationLeafKept(s.m[k], d.m[k], path[1..], x);
      }
    }
  }

  /** Every scalar leaf of the result comes from the source or the destination, at the same path. */
  lemma {:induction false} NoInventedLeaves(s: Value, d: Value, path: seq<string>, x: string)
    requires Compatible(s, d)
    requires Lookup(MergeValue(s, d), path) == Some(Scalar(x))
    ensures Lookup(s, path) == Some(Scalar(x)) || Lookup(d, path) == Some(Scalar(x))
    decreases |path|
  {
    if path != [] && s.Dict? && d.Dict? {
      var k := path[0];
      if k in s.m {
        NoInventedLeaves(s.m[k], NodeFor(d.m, k), path[1..], x);
        if k !in d.m {
          EmptyHasNoLeaves(path[1..], x);
        }
      }
    }
  }

  lemma EmptyHasNoLeaves(path: seq<string>, x: string)
    ensures Lookup(Dict(map[]), path) != Some(Scalar(x))
  {
  }

  /** The example of the function's documentation. */
  lemma DocumentationExample()
    ensures
      var a := map["first" := Dict(map["all_rows" := Dict(map["pass" := Scalar("dog"), "number" := Scalar("1")])])];
      var b := map["first" := Dict(map["all_rows" := Dict(map["fail" := Scalar("cat"), "number" := Scalar("5")])])];
      Mergeable(b, a) &&
      Merge(b, a) == map["first" := Dict(map["all_rows" :=
                       Dict(map["pass" := Scalar("dog"), "fail" := Scalar("cat"), "number" := Scalar("5")])])]
  {
    var inner := map["fail" := Scalar("cat"), "number" := Scalar("5")];
    var innerA := map["pass" := Scalar("dog"), "number" := Scalar("1")];
    var expectedInner := map["pass" := Scalar("dog"), "fail" := Scalar("cat"), "number" := Scalar("5")];
    assert Mergeable(inner, innerA);
    assert Merge(inner, innerA) == expectedInner;
    var mid := map["all_rows" := Dict(inner)];
    var midA := map["all_rows" := Dict(innerA)];
    assert Mergeable(mid, midA);
    assert Merge(mid, midA) == map["all_rows" := Dict(expectedInner)];
  }

  /** A mutable mapping object: the `dict` the source hands around and updates in place. */
  class Dictionary {
    var entries: Mapping

    constructor (initial: Mapping)
      ensures entries == initial
    {
      entries := initial;
    }
  }

  /**
   * The merge, in place: loops over the items of `source`, handing each to
   * `MergeItem`, and returns `destination` itself.
   */
  method MergeLhsDictIntoRhs(source: Mapping, destination: Dictionary) returns (r: Dictionary)
    requires Mergeable(source, destination.entries)
    modifies destination
    ensures r == destination
    ensures destination.entries == Merge(source, old(destination.entries))
    decreases Dict(source), 1
  {
    ghost var d0 := destination.entries;
    var pending := source.Keys;
    // the items of `source` handled so far
    ghost var done: Mapping := map[];
    while pending != {}
      invariant pending <= source.Keys
      invariant done.Keys == source.Keys - pending
      invariant forall k | k in done :: done[k] == source[k]
      invariant Mergeable(done, d0)
      invariant destination.entries == MergeValue(Dict(done), Dict(d0)).m
      decreases pending
    {
      var key :| key in pending;
      var value := source[key];
      MergeStep(source, done, key, d0);
      MergeItem(key, value, destination);
      pending := pending - {key};
      done := done[key := value];
    }
    assert done == source;
    MergeOfDicts(source, d0);
    r := destination;
  }

  /**
   * The body of the loop for one item: a mapping is merged recursively into
   * the node under `key` (an empty one is created when the key is absent);
   * anything else overwrites the entry.
   */
  method MergeItem(key: string, value: Value, destination: Dictionary)
    requires Compatible(value, NodeFor(destination.entries, key))
    modifies destination
    ensures destination.entries ==
            old(destination.entries)[key := MergeValue(value, NodeFor(old(destination.entries), key))]
    decreases value, 2
  {
    if value.Dict? {
      // get the node, or create an empty one
      var node := NodeFor(destination.entries, key);
      if node.Dict? {
        var child := new Dictionary(node.m);
        var _ := MergeLhsDictIntoRhs(value.m, child);
        MergeOfDicts(value.m, node.m);
        destination.entries := destination.entries[key := Dict(child.entries)];
      } else {
        // a scalar under an empty source mapping: the recursive call does nothing
        assert destination.entries[key := node] == destination.entries;
      }
    } else {
      destination.entries := destination.entries[key := value];
    }
  }

  /**
   * One turn of the loop in `MergeLhsDictIntoRhs`: with the items `done`
   * already merged into `d0`, the entry under `key` is still the original
   * one, and merging `source[key]` as well changes the result at `key` only.
   */
  lemma MergeStep(source: Mapping, done: Mapping, key: string, d0: Mapping)
    requires Mergeable(source, d0) && key in source
    requires key !in done && Mergeable(done, d0)
    ensures var cur := MergeValue(Dict(done), Dict(d0)).m;
      && NodeFor(cur, key) == NodeFor(d0, key)
      && Compatible(source[key], NodeFor(d0, key))
      && Mergeable(done[key := source[key]], d0)
      && MergeValue(Dict(done[key := source[key]]), Dict(d0)).m ==
         cur[key := MergeValue(source[key], NodeFor(d0, key))]
  {
    var value := source[key];
    assert Compatible(value, NodeFor(d0, key));
    MergeableOneMore(done, key, value, d0);
    MergeValueAt(done, d0, key);
  }

  lemma MergeOfDicts(sm: Mapping, dm: Mapping)
    requires Mergeable(sm, dm)
    ensures MergeValue(Dict(sm), Dict(dm)) == Dict(Merge(sm, dm))
  {
  }

  /** Adding one more source key keeps the merge possible when that key's entry is. */
  lemma MergeableOneMore(done: Mapping, key: string, value: Value, d0: Mapping)
    requires Mergeable(done, d0)
    requires Compatible(value, NodeFor(d0, key))
    ensures Mergeable(done[key := value], d0)
  {
    var more := done[key := value];
    forall k | k in more ensures Compatible(more[k], NodeFor(d0, k)) {
      if k != key {
        assert more[k] == done[k];
      }
    }
  }

  /** The entry under one key after a merge of two mappings. */
  lemma MergeValueAt(sm: Mapping, dm: Mapping, k: string)
    requires Mergeable(sm, dm)
    ensures var r := MergeValue(Dict(sm), Dict(dm)).m;
      && r.Keys == sm.Keys + dm.Keys
      && (k in sm ==> r[k] == MergeValue(sm[k], NodeFor(dm, k)))
      && (k !in sm && k in dm ==> r[k] == dm[k])
  {
  }
}
