# Verified model of four utilities of a Python helper collection

This project models, in Dafny, the four pieces of the `utils` helper collection that have logic of their own, and proves properties of each:

- **Recursive dictionary merge** (`merge_lhs_dict_into_rhs`, module `DataStructures`). Nested mappings are the datatype `Value = Scalar(s) | Dict(m)`. `MergeValue` and `Merge` give the merged result as a value. The in-place operation is a method on a mutable `Dictionary` object. It loops over the items of the source (`MergeItem` is the loop body). For a mapping-valued item whose node in the destination is a mapping (or missing, when a new empty one is made), it recurses into a node object. When that node is a scalar, the source's recursive call has nothing to do if the item is an empty mapping, so the model changes nothing and makes no call. Its postcondition ties the new state to `Merge`. The lemmas describe `Merge` key by key and leaf by leaf (along paths of keys), and prove the documented example, idempotence, and that merging an empty source changes nothing.
- **Singleton metaclass** (`Singleton.__call__`, module `Pattern`). The shared `_instances` dictionary is the field `instances` of a `Singleton` object. `Call` builds a fresh `Instance` only when the class is not cached yet. A ghost call history and the predicate `Valid()` state that each cached instance was built from the arguments of its class's first call.
- **Concrete-class enumeration** (`get_concrete_classes`, module `Inspection`). The subclass graph is a tree of `ClassNode`s. A class reachable along two paths appears twice. The function is proved equal to an independent reference definition: the pre-order list of nodes, keeping the non-abstract ones. Soundness, completeness and a length bound follow from that equality.
- **Beta-distribution parameter conversions** (`beta_a_b_from_mode_concentration` and `beta_mode_concentration_from_a_b`, module `Stats`). These are exact `real` arithmetic. The inverse's `assert a > 1 and b > 1` becomes the `AssertionFailed` outcome. Round trips are proved in both directions.

`Wrappers` holds the `Option` datatype shared by the modules.

Two behaviours of the code are easy to miss:
- Take a source mapping whose node in the destination is a scalar. The merge raises if that mapping has entries, and keeps the scalar if it is empty (data_structures.py:14-17). `Compatible` states when the merge goes through, and `CompatibleIffNoClash` gives the same condition in terms of key paths.
- Only the inverse beta conversion checks its inputs (stats.py:47). The forward conversion accepts any numbers.

## Model

| member | source | states |
|---|---|---|
| DataStructures.Merge | data_structures.py:11-17 | after the merge, the keys are those of source and destination. A key only the destination has keeps its value. A scalar of the source overwrites the destination's entry. A source mapping under a missing key is copied as it is. A destination scalar under an (empty) source mapping is kept. Two mappings under one key are merged recursively |
| DataStructures.MergeValue | data_structures.py:12-17 | merging one value into a node gives a leaf exactly when either side is a leaf. A source leaf overwrites the node, and a destination leaf under an (empty) source mapping is kept. A merged mapping holds the keys of both sides and no other |
| DataStructures.CompatibleIffNoClash | data_structures.py:12-17 | the merge goes through (`Compatible`) exactly when no key path leads, in both inputs, to a non-empty source mapping over a destination scalar. Those are the points where the code calls `setdefault` or item assignment on a non-mapping and raises |
| DataStructures.MergeIntoEmpty | data_structures.py:12-15 | merging a source value into a freshly created empty mapping never fails and reproduces the source value |
| DataStructures.MergeEmptySource | data_structures.py:11 | merging an empty source leaves the destination unchanged |
| DataStructures.MergeIdempotent | data_structures.py:11-17 | merging the same source a second time is possible and changes nothing more |
| DataStructures.SourceLeafWins | data_structures.py:11-17 | every scalar leaf of the source is found at the same key path in the result |
| DataStructures.DestinationLeafKept | data_structures.py:11-17 | a scalar leaf of the destination survives unless the source has a scalar on the path to it |
| DataStructures.NoInventedLeaves | data_structures.py:11-17 | every scalar leaf of the result is the source's or the destination's leaf at the same path |
| DataStructures.DocumentationExample | data_structures.py:6-9 | the documented example merges to the documented result |
| DataStructures.MergeLhsDictIntoRhs | data_structures.py:2-19 | the in-place merge returns the destination object itself, and that object's new contents are `Merge(source, old contents)` |
| DataStructures.MergeItem | data_structures.py:12-17 | one item of the loop changes the destination under that key only, to the merge of the item into the existing node (or a new empty mapping) |
| Pattern.Singleton.constructor | pattern.py:8 | the instance cache starts empty, with no calls recorded |
| Pattern.Singleton.Call | pattern.py:10-16 | afterwards the class is cached and the call returned the cached entry. A cached class gets the same object back and its arguments are ignored. A new class gets a fresh object built from these arguments, cached under that class only. Entries are never removed or replaced. The cached classes are exactly the classes called so far |
| Pattern.Singleton.CallTwice | pattern.py:12-16 | two calls for one class return the same object, built from the first call's arguments unless the class was cached before |
| Pattern.FirstCallAppend | pattern.py:12-14 | a further call changes the first call of no class already called and makes itself the first call of a new class |
| Pattern.FirstCallIffCalled | pattern.py:12-14 | a class has a first call in the history exactly when it occurs in it |
| Inspection.GetConcreteClasses | inspection.py:28-39 | the result never holds more names than the traversed tree has nodes |
| Inspection.GetConcreteClassesIsPreOrder | inspection.py:28-39 | the result is the pre-order traversal of the subclass tree, filtered to non-abstract classes: each once per path to it, in `__subclasses__()` order |
| Inspection.PreOrderIsReachable | inspection.py:38-39 | the nodes of the traversal are exactly the classes reachable from the base through subclass links |
| Inspection.GetConcreteClassesSound | inspection.py:28-39 | every returned name is the name of a non-abstract class reachable from the base |
| Inspection.GetConcreteClassesComplete | inspection.py:28-39 | every non-abstract class reachable from the base has its name returned |
| Inspection.BaseFirstIffConcrete | inspection.py:28 | when the base's name does not recur below it, the base's name is the first element exactly when the base is not abstract |
| Inspection.LeafClass | inspection.py:31-33 | a class without subclasses yields its own name if concrete and nothing if abstract |
| Stats.BetaABFromModeConcentration | stats.py:8-26 | a + b equals the concentration, and the mode is the share of a - 1 (and 1 - mode the share of b - 1) in a + b - 2 |
| Stats.BetaModeConcentrationFromAB | stats.py:29-48 | the conversion succeeds exactly when a > 1 and b > 1. It then returns concentration a + b > 2 and a mode strictly between 0 and 1 with mode * (a + b - 2) = a - 1 |
| Stats.ForwardMeetsInverseGuard | stats.py:26-47 | for a concentration above 2, the forward conversion gives a > 1 and b > 1 exactly when 0 < mode < 1 |
| Stats.RoundTripSucceedsIffModeInside | stats.py:26-48 | for a concentration above 2, converting forward and back passes the assertion exactly when 0 < mode < 1 |
| Stats.RoundTripFromModeConcentration | stats.py:26-48 | converting (mode, concentration) to (a, b) and back gives (mode, concentration) again |
| Stats.RoundTripFromShape | stats.py:26-48 | converting (a, b) to (mode, concentration) and back gives (a, b) again |

## Left out

- DataStructures.MergeLhsDictIntoRhs: requires `Mergeable`. The source raises a `TypeError` or `AttributeError` when a destination scalar meets a non-empty source mapping. By then the items handled earlier in the loop are already changed. That failure and the partly changed destination are not modelled. `Compatible` states when the failure occurs, for the values the model has.
- DataStructures.MergeItem: requires `Compatible` for the same reason.
- Dictionary order: Python dictionaries keep insertion order, while Dafny maps have none. The model does not fix the order in which the loop visits the source's keys, nor where new keys land in the destination.
- Aliasing of nested mappings: a nested mapping is a value inside its parent. The model creates a node object for the recursive call and writes its contents back. It does not capture one dictionary object shared between two places, a source that is (part of) the destination, or a mutable non-dict value stored by reference.
- Scalar leaves are strings and keys are strings. Python allows any non-dict value and any hashable key.
- Non-dict containers in the destination: only the source's values are type-tested (`isinstance`, data_structures.py:12). A destination node is used by duck typing: `setdefault` at line 14 and item assignment at line 17. So a destination value that is a non-dict mapping (a `collections.UserDict`, say) is merged into in place, and a list takes item assignment for integer keys. The model treats every non-dict destination value as a leaf. For those inputs `Compatible` therefore predicts a failure where the code goes through.
- Pattern.Singleton.Call: the class's own constructor is modelled as allocating a new `Instance` that records the class and the arguments. Its side effects and any exception it raises are not modelled, nor is a class that shadows `_instances` with its own attribute.
- Thread safety of the singleton cache is not modelled, since the source makes no promise about it.
- Inspection: the reflection is replaced by the tree. That covers the name lookup `getattr(module, ...)`, the `AttributeError` for a subclass defined in another module, and `inspect.isabstract`. The tree is finite, like any class hierarchy.
- Stats: Python floats are modelled as exact reals, so rounding, infinities and NaN are out of scope. An `assert` removed by `python -O` is not modelled either.
- Stats: `gamma_shape_rate_from_mode_sd` uses a floating-point square root, and `plot_beta`, `plot_gamma` and `plot_half_cauchy` draw with matplotlib and scipy. They are not part of this model.
- cuda.py, external_apps.py, file.py, geometry.py, matlab.py and setup.py are not part of this model. They call hardware telemetry, external programs, the clock, the file system, HDF5, MATLAB and YAML libraries, or floating-point trigonometry.
