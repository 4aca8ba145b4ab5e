/**
 * The singleton metaclass (`Singleton.__call__`): calling a class whose
 * metaclass is `Singleton` constructs an instance only the first time; the
 * instance is cached in a dictionary shared by all such classes, keyed by
 * class, and every call returns the cached instance.
 */
module Pattern {

  import opened Wrappers

  /** The identity of a class object (the dictionary key). */
  type ClassId = nat

  /** The positional and keyword arguments of a call. */
  datatype Arguments = Arguments(positional: seq<string>, keyword: map<string, string>)

  /** One call of a singleton class, as the cache sees it. */
  datatype CallRecord = CallRecord(cls: ClassId, args: Arguments)

  /** The arguments of the first call of `cls` in `history`, if any. */
  function FirstCall(history: seq<CallRecord>, cls: ClassId): Option<Arguments>
  {
    if history == [] then None
    else if history[0].cls == cls then Some(history[0].args)
    else FirstCall(history[1..], cls)
  }

  /** The classes called at least once in `history`. */
  function Called(history: seq<CallRecord>): (s: set<ClassId>)
    ensures forall i | 0 <= i < |history| :: history[i].cls in s
    ensures forall c | c in s :: exists i | 0 <= i < |history| :: history[i].cls == c
  {
    set i | 0 <= i < |history| :: history[i].cls
  }

  /** A class has a first call exactly when it was called at all. */
  lemma {:induction false} FirstCallIffCalled(history: seq<CallRecord>, cls: ClassId)
    ensures FirstCall(history, cls).Some? <==> cls in Called(history)
  {
    if history != [] {
      FirstCallIffCalled(history[1..], cls);
      if history[0].cls != cls && cls in Called(history) {
        var i :| 0 <= i < |history| && history[i].cls == cls;
        assert history[1..][i - 1].cls == cls;
      }
    }
  }

  /** One more call changes the first call of no class that was already called. */
  lemma {:induction false} FirstCallAppend(history: seq<CallRecord>, call: CallRecord, cls: ClassId)
    ensures FirstCall(history + [call], cls) ==
            if FirstCall(history, cls).Some? then FirstCall(history, cls)
            else if call.cls == cls then Some(call.args)
            else None
  {
    if history != [] {
      assert (history + [call])[1..] == history[1..] + [call];
      FirstCallAppend(history[1..], call, cls);
    }
  }

  /** An object built by the class's own constructor, `super().__call__(*args, **kwargs)`. */
  class Instance {
    const cls: ClassId
    const args: Arguments

    constructor (cls: ClassId, args: Arguments)
      ensures this.cls == cls && this.args == args
    {
      this.cls := cls;
      this.args := args;
    }
  }

  /** The metaclass's `_instances` dictionary, shared by every class that uses it. */
  class Singleton {
    var instances: map<ClassId, Instance>
    /** The calls made so far, oldest first. */
    ghost var history: seq<CallRecord>

    /**
     * The cache holds exactly the classes called so far, each with the
     * instance built for it from the arguments of its first call.
     */
    ghost predicate Valid()
      reads this
    {
      && (forall c :: c in instances <==> FirstCall(history, c).Some?)
      && (forall c | c in instances :: instances[c].cls == c && instances[c].args == FirstCall(history, c).value)
    }

    /** `_instances = {}`: the cache starts empty. */
    constructor ()
      ensures Valid() && instances == map[] && history == []
    {
      instances := map[];
      history := [];
    }

    /**
     * `cls(*args, **kwargs)`: constructs and caches an instance on the first
     * call for `cls`; returns the cached one on every call.
     */
    method Call(cls: ClassId, args: Arguments) returns (r: Instance)
      requires Valid()
      modifies this
      ensures Valid() && history == old(history) + [CallRecord(cls, args)]
      // the cached classes are exactly the classes called so far
      ensures instances.Keys == Called(history)
      // afterwards `cls` is cached, and the call returned the cached entry
      ensures cls in instances && r == instances[cls] && r.cls == cls
      // a cached class: the same object as before, the arguments are ignored, nothing changes
      ensures cls in old(instances) ==> r == old(instances)[cls] && instances == old(instances)
      // a new class: a new object built from these arguments, added under `cls` only
      ensures cls !in old(instances) ==>
                fresh(r) && r.args == args && instances == old(instances)[cls := r]
      // entries are never removed, and those of other classes are untouched
      ensures old(instances).Keys <= instances.Keys
      ensures forall c | c in old(instances) :: instances[c] == old(instances)[c]
    {
      forall c ensures FirstCall(history + [CallRecord(cls, args)], c) ==
                       if FirstCall(history, c).Some? then FirstCall(history, c)
                       else if c == cls then Some(args) else None {
        FirstCallAppend(history, CallRecord(cls, args), c);
      }
      if cls !in instances {
        var built := new Instance(cls, args);
        instances := instances[cls := built];
      }
      history := history + [CallRecord(cls, args)];
      forall c ensures c in instances <==> c in Called(history) {
        FirstCallIffCalled(history, c);
      }
      r := instances[cls];
    }

    /** Two calls for the same class return one and the same object. */
    method CallTwice(cls: ClassId, first: Arguments, second: Arguments) returns (r1: Instance, r2: Instance)
      requires Valid()
      modifies this
      ensures Valid()
      ensures r1 == r2
      ensures r1.args == if cls in old(instances) then old(instances)[cls].args else first
    {
      r1 := Call(cls, first);
      r2 := Call(cls, second);
    }
  }
}
