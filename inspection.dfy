/**
 * Enumeration of the concrete classes below a base class
 * (`get_concrete_classes`).
 *
 * The subclass graph is given as a tree: each node is a class with its
 * name, whether it is abstract, and its direct subclasses in the order
 * `__subclasses__()` lists them. A class reachable along two paths (a
 * class with two bases) appears as two copies.
 */
module Inspection {

  datatype ClassNode = ClassNode(name: string, isAbstract: bool, subclasses: seq<ClassNode>)

  /** The concatenation of a sequence of sequences. */
  function Flatten<T>(ss: seq<seq<T>>): seq<T>
  {
    if ss == [] then [] else ss[0] + Flatten(ss[1..])
  }

  /** The entry a class contributes about itself: its name when it is not abstract. */
  function OwnEntry(c: ClassNode): seq<string>
  {
    if c.isAbstract then [] else [c.name]
  }

  /**
   * `get_concrete_classes`: the base's own entry followed by the results
   * for its subclasses, one after the other.
   */
  function GetConcreteClasses(c: ClassNode): (r: seq<string>)
    // never more names than nodes in the traversed tree
    ensures |r| <= |PreOrder(c)|
    decreases c, 1
  {
    var res := OwnEntry(c);
    if c.subclasses == [] then res
    else
      FlattenLengthLe(SubclassResults(c), Subtrees(c));
      res + Flatten(SubclassResults(c))
  }

  /** The result for each direct subclass, in `__subclasses__()` order. */
  function SubclassResults(c: ClassNode): (parts: seq<seq<string>>)
    ensures |parts| == |c.subclasses|
    decreases c, 0
  {
    seq(|c.subclasses|, i requires 0 <= i < |c.subclasses| => GetConcreteClasses(c.subclasses[i]))
  }

  // ---------------------------------------------------------------------
  // Reference definition: the nodes in pre-order, filtered and named.

  /** Every node of the tree below `c` (one per path), in pre-order. */
  function PreOrder(c: ClassNode): seq<ClassNode>
    decreases c, 1
  {
    [c] + Flatten(Subtrees(c))
  }

  /** The pre-order traversal of each direct subclass. */
  function Subtrees(c: ClassNode): (trees: seq<seq<ClassNode>>)
    ensures |trees| == |c.subclasses|
    decreases c, 0
  {
    seq(|c.subclasses|, i requires 0 <= i < |c.subclasses| => PreOrder(c.subclasses[i]))
  }

  /** The names of the non-abstract nodes of `ns`, in order. */
  function ConcreteNames(ns: seq<ClassNode>): seq<string>
  {
    if ns == [] then [] else OwnEntry(ns[0]) + ConcreteNames(ns[1..])
  }

  /** `n` is `c` or hangs from it through subclass links. */
  ghost predicate Reachable(c: ClassNode, n: ClassNode)
    decreases c
  {
    n == c || exists i | 0 <= i < |c.subclasses| :: Reachable(c.subclasses[i], n)
  }

  lemma {:induction false} FlattenLengthLe<T, U>(xs: seq<seq<T>>, ys: seq<seq<U>>)
    requires |xs| == |ys|
    requires forall i | 0 <= i < |xs| :: |xs[i]| <= |ys[i]|
    ensures |Flatten(xs)| <= |Flatten(ys)|
  {
    if xs != [] {
      FlattenLengthLe(xs[1..], ys[1..]);
    }
  }

  lemma {:induction false} ConcreteNamesAppend(a: seq<ClassNode>, b: seq<ClassNode>)
    ensures ConcreteNames(a + b) == ConcreteNames(a) + ConcreteNames(b)
  {
    if a == [] {
      assert a + b == b;
    } else {
      assert (a + b)[1..] == a[1..] + b;
      ConcreteNamesAppend(a[1..], b);
    }
  }

  /** Filtering a concatenation filters each part. */
  lemma {:induction false} ConcreteNamesFlatten(xss: seq<seq<ClassNode>>)
    ensures ConcreteNames(Flatten(xss)) ==
            Flatten(seq(|xss|, i requires 0 <= i < |xss| => ConcreteNames(xss[i])))
  {
    var mapped := seq(|xss|, i requires 0 <= i < |xss| => ConcreteNames(xss[i]));
    if xss != [] {
      ConcreteNamesAppend(xss[0], Flatten(xss[1..]));
      ConcreteNamesFlatten(xss[1..]);
      assert mapped[1..] == seq(|xss[1..]|, i requires 0 <= i < |xss[1..]| => ConcreteNames(xss[1..][i]));
    }
  }

  /**
   * The result is the pre-order traversal of the subclass tree, keeping
   * the non-abstract classes: each such class once per path to it.
   */
  lemma {:induction false} GetConcreteClassesIsPreOrder(c: ClassNode)
    ensures GetConcreteClasses(c) == ConcreteNames(PreOrder(c))
    decreases c
  {
    var subs := c.subclasses;
    var trees := Subtrees(c);
    var parts := SubclassResults(c);
    assert ConcreteNames([c]) == OwnEntry(c);
    ConcreteNamesAppend([c], Flatten(trees));
    ConcreteNamesFlatten(trees);
    forall i | 0 <= i < |subs| ensures parts[i] == ConcreteNames(trees[i]) {
      GetConcreteClassesIsPreOrder(subs[i]);
    }
    assert seq(|trees|, i requires 0 <= i < |trees| => ConcreteNames(trees[i])) == parts;
    if subs == [] {
      assert Flatten(parts) == [];
    }
  }

  /** Every name kept comes from a non-abstract node. */
  lemma {:induction false} ConcreteNamesSound(ns: seq<ClassNode>, x: string)
    requires x in ConcreteNames(ns)
    ensures exists n | n in ns :: !n.isAbstract && n.name == x
  {
    if ns[0].isAbstract || ns[0].name != x {
      ConcreteNamesSound(ns[1..], x);
      var n :| n in ns[1..] && !n.isAbstract && n.name == x;
      assert n in ns;
    }
  }

  /** Every non-abstract node has its name kept. */
  lemma {:induction false} ConcreteNamesComplete(ns: seq<ClassNode>, n: ClassNode)
    requires n in ns && !n.isAbstract
    ensures n.name in ConcreteNames(ns)
  {
    if ns[0] != n {
      ConcreteNamesComplete(ns[1..], n);
    }
  }

  lemma {:induction false} InFlatten<T>(ss: seq<seq<T>>, x: T)
    ensures x in Flatten(ss) <==> exists i | 0 <= i < |ss| :: x in ss[i]
  {
    if ss != [] {
      InFlatten(ss[1..], x);
      if exists i | 0 <= i < |ss| :: x in ss[i] {
        var i :| 0 <= i < |ss| && x in ss[i];
        if i > 0 {
          assert x in ss[1..][i - 1];
        }
      }
    }
  }

  /** The nodes of the pre-order traversal are exactly the nodes reachable from the base. */
  lemma {:induction false} PreOrderIsReachable(c: ClassNode, n: ClassNode)
    ensures n in PreOrder(c) <==> Reachable(c, n)
    decreases c
  {
    var subs := c.subclasses;
    var trees := Subtrees(c);
    InFlatten(trees, n);
    forall i | 0 <= i < |subs| ensures n in trees[i] <==> Reachable(subs[i], n) {
      PreOrderIsReachable(subs[i], n);
    }
  }

  /** Every name returned belongs to a non-abstract class below (or equal to) the base. */
  lemma GetConcreteClassesSound(c: ClassNode, x: string)
    requires x in GetConcreteClasses(c)
    ensures exists n :: Reachable(c, n) && !n.isAbstract && n.name == x
  {
    GetConcreteClassesIsPreOrder(c);
    ConcreteNamesSound(PreOrder(c), x);
    var n :| n in PreOrder(c) && !n.isAbstract && n.name == x;
    PreOrderIsReachable(c, n);
  }

  /** Every non-abstract class below (or equal to) the base has its name returned. */
  lemma GetConcreteClassesComplete(c: ClassNode, n: ClassNode)
    requires Reachable(c, n) && !n.isAbstract
    ensures n.name in GetConcreteClasses(c)
  {
    GetConcreteClassesIsPreOrder(c);
    PreOrderIsReachable(c, n);
    ConcreteNamesComplete(PreOrder(c), n);
  }

  /**
   * The base's own name comes first exactly when the base is not abstract.
   * In a module a name denotes one class and no class is its own subclass,
   * so the base's name does not occur further down the tree.
   */
  lemma BaseFirstIffConcrete(c: ClassNode)
    requires forall n | n in PreOrder(c)[1..] :: n.name != c.name
    ensures var r := GetConcreteClasses(c);
      !c.isAbstract <==> |r| > 0 && r[0] == c.name
  {
    var r := GetConcreteClasses(c);
    GetConcreteClassesIsPreOrder(c);
    var rest := PreOrder(c)[1..];
    assert PreOrder(c) == [c] + rest;
    ConcreteNamesAppend([c], rest);
    if c.isAbstract && |r| > 0 {
      assert r == ConcreteNames(rest);
      ConcreteNamesSound(rest, r[0]);
    }
  }

  /** A class without subclasses yields its own name, or nothing when it is abstract. */
  lemma LeafClass(c: ClassNode)
    requires c.subclasses == []
    ensures GetConcreteClasses(c) == if c.isAbstract then [] else [c.name]
  {
  }
}
