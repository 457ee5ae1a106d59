/**
 * Graph discovery of the schema compiler: the depth-first walk that collects, from a root
 * contract, every contract reachable through getter return types (JAUtilities.getAllToConvert).
 *
 * Reflection is replaced by data: for each Java type, the shapes of its methods' return
 * types, in the order `getMethods()` lists them.
 */
module SchemaDiscovery {
  import opened Outcomes

  /** A Java class: a declared type, or the proxy class generated for another class
      (its name is the other class's name with a fixed suffix, so it is a function of it). */
  datatype JavaType = Declared(id: nat) | Generated(base: JavaType)

  /** The type argument of a `List` return type: erased (raw `List`, `List<Object>`, or an
      argument with no raw class) or a class. */
  datatype ListElement = Erased | ElementClass(raw: JavaType)

  /** What discovery sees of one method of a type. */
  datatype MethodShape =
    | NotGetter                                              // Utilities.isGetter gives null
    | InterfaceReturn(returned: JavaType, inJavaPackage: bool) // an interface other than List; the flag: its name starts with "java."
    | ArrayReturn(component: JavaType, componentIsInterface: bool)
    | ListReturn(element: ListElement)                       // java.util.List, raw or parameterized
    | OtherReturn                                            // any other return type

  /** The methods of each type; a type absent from the map has no methods. */
  type GetterMap = map<JavaType, seq<MethodShape>>

  function MethodsOf(g: GetterMap, t: JavaType): seq<MethodShape> {
    if t in g then g[t] else []
  }

  /** The type discovery recurses into for one method, if any. */
  function Target(s: MethodShape): (r: Option<JavaType>)
    ensures s.InterfaceReturn? ==> r == if s.inJavaPackage then None else Some(s.returned)
    ensures s.ArrayReturn? ==> r == if s.componentIsInterface then Some(s.component) else None
    ensures s.ListReturn? ==> (r.Some? <==> s.element.ElementClass?)
    ensures s.ListReturn? && s.element.ElementClass? ==> r == Some(s.element.raw)
    ensures s.NotGetter? || s.OtherReturn? ==> r.None?
  {
    match s
    case InterfaceReturn(c, java) => if java then None else Some(c)
    case ArrayReturn(c, isInterface) => if isInterface then Some(c) else None
    case ListReturn(ElementClass(c)) => Some(c)
    case _ => None
  }

  /** The types discovery recurses into from `t`. */
  function Children(g: GetterMap, t: JavaType): set<JavaType> {
    set s | s in MethodsOf(g, t) && Target(s).Some? :: Target(s).value
  }

  /** Every type any method of any known type leads to: the finite universe of the walk. */
  function Universe(g: GetterMap): set<JavaType> {
    set t, s | t in g && s in g[t] && Target(s).Some? :: Target(s).value
  }

  function Measure(g: GetterMap, t: JavaType, stack: set<JavaType>): nat {
    |(Universe(g) + {t}) - stack|
  }

  lemma MeasureShrinks(g: GetterMap, t: JavaType, stack: set<JavaType>)
    requires t !in stack
    ensures |Universe(g) - (stack + {t})| < Measure(g, t, stack)
  {
    var u := Universe(g);
    assert (u + {t}) - stack == (u - (stack + {t})) + {t};
  }

  lemma TargetInUniverse(g: GetterMap, owner: JavaType, k: nat)
    requires k < |MethodsOf(g, owner)| && Target(MethodsOf(g, owner)[k]).Some?
    ensures Target(MethodsOf(g, owner)[k]).value in Universe(g)
    ensures Universe(g) + {Target(MethodsOf(g, owner)[k]).value} == Universe(g)
  {
    var s := MethodsOf(g, owner)[k];
    assert owner in g && s in g[owner];
  }

  /**
   * The list of collected types after `getAllToConvert(t)` runs with the collected list
   * `needs` and the recursion stack `stack`: nothing happens if `t` is already collected or
   * on the stack; otherwise the targets of its methods are visited in order with `t` pushed,
   * and `t` is appended last.
   */
  function Visit(g: GetterMap, t: JavaType, needs: seq<JavaType>, stack: set<JavaType>): seq<JavaType>
    decreases Measure(g, t, stack), 0, 0
  {
    if t in needs || t in stack then needs
    else
      MeasureShrinks(g, t, stack);
      VisitFrom(g, t, 0, needs, stack + {t}) + [t]
  }

  /** The loop over the methods of `owner`, from the `k`-th on. */
  function VisitFrom(g: GetterMap, owner: JavaType, k: nat, needs: seq<JavaType>, stack: set<JavaType>): seq<JavaType>
    requires k <= |MethodsOf(g, owner)|
    decreases |Universe(g) - stack|, 1, |MethodsOf(g, owner)| - k
  {
    if k == |MethodsOf(g, owner)| then needs
    else if Target(MethodsOf(g, owner)[k]).None? then
      VisitFrom(g, owner, k + 1, needs, stack)
    else
      TargetInUniverse(g, owner, k);
      var next := Visit(g, Target(MethodsOf(g, owner)[k]).value, needs, stack);
      VisitFrom(g, owner, k + 1, next, stack)
  }

  ghost predicate NoDup(s: seq<JavaType>) {
    forall i, j :: 0 <= i < j < |s| ==> s[i] != s[j]
  }

  /** `p` is a walk along discovery edges. */
  ghost predicate IsPath(g: GetterMap, p: seq<JavaType>) {
    |p| > 0 && forall k :: 0 <= k < |p| - 1 ==> p[k + 1] in Children(g, p[k])
  }

  ghost predicate Reaches(g: GetterMap, a: JavaType, b: JavaType) {
    exists p :: IsPath(g, p) && p[0] == a && p[|p| - 1] == b
  }

  lemma ReachesSelf(g: GetterMap, a: JavaType)
    ensures Reaches(g, a, a)
  {
    assert IsPath(g, [a]);
  }

  lemma ReachesStep(g: GetterMap, a: JavaType, c: JavaType, b: JavaType)
    requires c in Children(g, a) && Reaches(g, c, b)
    ensures Reaches(g, a, b)
  {
    var p :| IsPath(g, p) && p[0] == c && p[|p| - 1] == b;
    var q := [a] + p;
    forall k | 0 <= k < |q| - 1
      ensures q[k + 1] in Children(g, q[k])
    {
      if k > 0 {
        assert q[k + 1] == p[k] && q[k] == p[k - 1];
      }
    }
    assert IsPath(g, q) && q[0] == a && q[|q| - 1] == b;
  }

  /** Each type collected from position `from` on has each of its children earlier in the
      list, or on the stack the walk started with, or later in the list and on a cycle
      back to it. */
  ghost predicate PostOrder(g: GetterMap, r: seq<JavaType>, from: nat, stack: set<JavaType>) {
    forall i :: from <= i < |r| ==> ChildrenPlaced(g, r, i, stack)
  }

  ghost predicate ChildrenPlaced(g: GetterMap, r: seq<JavaType>, i: nat, stack: set<JavaType>)
    requires i < |r|
  {
    forall c :: c in Children(g, r[i]) ==>
      c in r[..i] || c in stack || (c in r[i..] && Reaches(g, c, r[i]))
  }

  /** The types appended after position `from` are fresh, off the stack and reachable from `t`. */
  ghost predicate NewPart(g: GetterMap, t: JavaType, r: seq<JavaType>, from: nat, stack: set<JavaType>) {
    forall i :: from <= i < |r| ==> r[i] !in stack && Reaches(g, t, r[i])
  }

  /** Placement facts about a prefix carry over to any extension of it. */
  lemma PostOrderPrefix(g: GetterMap, r1: seq<JavaType>, r: seq<JavaType>, from: nat, stack: set<JavaType>)
    requires r1 <= r && PostOrder(g, r1, from, stack)
    ensures forall i :: from <= i < |r1| ==> ChildrenPlaced(g, r, i, stack)
  {
    forall i | from <= i < |r1|
      ensures ChildrenPlaced(g, r, i, stack)
    {
      assert ChildrenPlaced(g, r1, i, stack);
      forall c | c in Children(g, r[i])
        ensures c in r[..i] || c in stack || (c in r[i..] && Reaches(g, c, r[i]))
      {
        assert r[i] == r1[i] && r[..i] == r1[..i];
        if c in r1[i..] {
          var m :| 0 <= m < |r1| - i && r1[i..][m] == c;
          assert r[i..][m] == c;
        }
      }
    }
  }

  lemma {:induction false} VisitSpec(g: GetterMap, t: JavaType, needs: seq<JavaType>, stack: set<JavaType>)
    ensures t in needs || t in stack ==> Visit(g, t, needs, stack) == needs
    ensures needs <= Visit(g, t, needs, stack)
    ensures NoDup(needs) ==> NoDup(Visit(g, t, needs, stack))
    ensures t in Visit(g, t, needs, stack) <==> t in needs || t !in stack
    ensures NewPart(g, t, Visit(g, t, needs, stack), |needs|, stack)
    ensures PostOrder(g, Visit(g, t, needs, stack), |needs|, stack)
    decreases Measure(g, t, stack), 0, 0
  {
    if t in needs || t in stack {
      return;
    }
    MeasureShrinks(g, t, stack);
    var inner := VisitFrom(g, t, 0, needs, stack + {t});
    VisitFromSpec(g, t, 0, needs, stack + {t});
    assert Visit(g, t, needs, stack) == inner + [t];
    ChildrenVisited(g, t, inner, stack + {t});
    CloseVisit(g, t, needs, stack, inner);
  }

  /** The targets of every method of `t` are collected or on the stack: the same fact per child. */
  lemma ChildrenVisited(g: GetterMap, t: JavaType, r: seq<JavaType>, stack: set<JavaType>)
    requires forall j :: 0 <= j < |MethodsOf(g, t)| && Target(MethodsOf(g, t)[j]).Some? ==>
      Target(MethodsOf(g, t)[j]).value in r || Target(MethodsOf(g, t)[j]).value in stack
    ensures forall c :: c in Children(g, t) ==> c in r || c in stack
  {
    forall c | c in Children(g, t)
      ensures c in r || c in stack
    {
      var s :| s in MethodsOf(g, t) && Target(s) == Some(c);
      var j :| 0 <= j < |MethodsOf(g, t)| && MethodsOf(g, t)[j] == s;
    }
  }

  /** Appending `t` after the walk over its methods keeps the walk's properties. */
  lemma CloseVisit(g: GetterMap, t: JavaType, needs: seq<JavaType>, stack: set<JavaType>, inner: seq<JavaType>)
    requires t !in needs && t !in stack
    requires needs <= inner
    requires NoDup(needs) ==> NoDup(inner)
    requires NewPart(g, t, inner, |needs|, stack + {t})
    requires PostOrder(g, inner, |needs|, stack + {t})
    requires forall c :: c in Children(g, t) ==> c in inner || c in stack + {t}
    ensures needs <= inner + [t]
    ensures NoDup(needs) ==> NoDup(inner + [t])
    ensures t in inner + [t]
    ensures NewPart(g, t, inner + [t], |needs|, stack)
    ensures PostOrder(g, inner + [t], |needs|, stack)
  {
    var r := inner + [t];
    forall i | |needs| <= i < |r|
      ensures r[i] !in stack && Reaches(g, t, r[i])
    {
      if i == |inner| {
        ReachesSelf(g, t);
      } else {
        assert r[i] == inner[i];
      }
    }
    if NoDup(needs) {
      forall i, j | 0 <= i < j < |r|
        ensures r[i] != r[j]
      {
        if j == |inner| && i >= |needs| {
          assert inner[i] !in stack + {t};
        } else if j == |inner| {
          assert inner[i] == needs[i];
        } else {
          assert r[i] == inner[i] && r[j] == inner[j];
        }
      }
    }
    forall i | |needs| <= i < |r|
      ensures ChildrenPlaced(g, r, i, stack)
    {
      forall c | c in Children(g, r[i])
        ensures c in r[..i] || c in stack || (c in r[i..] && Reaches(g, c, r[i]))
      {
        if i == |inner| {
          if c == t {
            ReachesSelf(g, t);
            assert r[i..] == [t];
          } else if c in inner {
            assert r[..i] == inner;
          }
        } else {
          assert ChildrenPlaced(g, inner, i, stack + {t});
          ChildOfInner(g, t, stack, inner, i, c);
        }
      }
    }
  }

  lemma ChildOfInner(g: GetterMap, t: JavaType, stack: set<JavaType>, inner: seq<JavaType>, i: nat, c: JavaType)
    requires i < |inner| && c in Children(g, inner[i])
    requires Reaches(g, t, inner[i])
    requires c in inner[..i] || c in stack + {t} || (c in inner[i..] && Reaches(g, c, inner[i]))
    ensures var r := inner + [t];
      c in r[..i] || c in stack || (c in r[i..] && Reaches(g, c, r[i]))
  {
    var r := inner + [t];
    assert r[i] == inner[i] && r[..i] == inner[..i];
    if c == t {
      assert r[|inner|] == t;
    } else if c in inner[i..] {
      var m :| i <= m < |inner| && inner[m] == c;
      assert r[m] == c;
    }
  }

  lemma {:induction false} VisitFromSpec(g: GetterMap, owner: JavaType, k: nat, needs: seq<JavaType>, stack: set<JavaType>)
    requires k <= |MethodsOf(g, owner)|
    requires owner in stack
    ensures needs <= VisitFrom(g, owner, k, needs, stack)
    ensures NoDup(needs) ==> NoDup(VisitFrom(g, owner, k, needs, stack))
    ensures NewPart(g, owner, VisitFrom(g, owner, k, needs, stack), |needs|, stack)
    ensures PostOrder(g, VisitFrom(g, owner, k, needs, stack), |needs|, stack)
    ensures forall j :: k <= j < |MethodsOf(g, owner)| && Target(MethodsOf(g, owner)[j]).Some? ==>
      Target(MethodsOf(g, owner)[j]).value in VisitFrom(g, owner, k, needs, stack) ||
      Target(MethodsOf(g, owner)[j]).value in stack
    decreases |Universe(g) - stack|, 1, 2 * (|MethodsOf(g, owner)| - k)
  {
    var ms := MethodsOf(g, owner);
    if k == |ms| {
      return;
    }
    var next := needs;
    if Target(ms[k]).Some? {
      next := Visit(g, Target(ms[k]).value, needs, stack);
      VisitOneTarget(g, owner, k, needs, stack);
    }
    var r := VisitFrom(g, owner, k + 1, next, stack);
    assert r == VisitFrom(g, owner, k, needs, stack);
    VisitFromSpec(g, owner, k + 1, next, stack);
    ComposeSteps(g, owner, needs, next, r, stack);
    if Target(ms[k]).Some? && Target(ms[k]).value in next {
      var m :| 0 <= m < |next| && next[m] == Target(ms[k]).value;
      assert r[m] == next[m];
    }
  }

  /** The walk into the target of the k-th method of `owner`, which is on the stack. */
  lemma {:induction false} VisitOneTarget(g: GetterMap, owner: JavaType, k: nat, needs: seq<JavaType>, stack: set<JavaType>)
    requires k < |MethodsOf(g, owner)| && owner in stack && Target(MethodsOf(g, owner)[k]).Some?
    ensures var c := Target(MethodsOf(g, owner)[k]).value;
      var next := Visit(g, c, needs, stack);
      needs <= next && (NoDup(needs) ==> NoDup(next)) && (c in next || c in stack) &&
      NewPart(g, owner, next, |needs|, stack) && PostOrder(g, next, |needs|, stack)
    decreases |Universe(g) - stack|, 1, 2 * (|MethodsOf(g, owner)| - k) - 1
  {
    var c := Target(MethodsOf(g, owner)[k]).value;
    TargetInUniverse(g, owner, k);
    var next := Visit(g, c, needs, stack);
    VisitSpec(g, c, needs, stack);
    assert c in Children(g, owner);
    forall i | |needs| <= i < |next|
      ensures next[i] !in stack && Reaches(g, owner, next[i])
    {
      ReachesStep(g, owner, c, next[i]);
    }
  }

  /** One method's visit followed by the rest of the loop. */
  lemma ComposeSteps(g: GetterMap, owner: JavaType, needs: seq<JavaType>, next: seq<JavaType>, r: seq<JavaType>, stack: set<JavaType>)
    requires needs <= next <= r
    requires NoDup(needs) ==> NoDup(next)
    requires NoDup(next) ==> NoDup(r)
    requires NewPart(g, owner, next, |needs|, stack) && NewPart(g, owner, r, |next|, stack)
    requires PostOrder(g, next, |needs|, stack) && PostOrder(g, r, |next|, stack)
    ensures needs <= r
    ensures NoDup(needs) ==> NoDup(r)
    ensures NewPart(g, owner, r, |needs|, stack)
    ensures PostOrder(g, r, |needs|, stack)
  {
    forall i | |needs| <= i < |next|
      ensures r[i] == next[i]
    {
    }
    PostOrderPrefix(g, next, r, |needs|, stack);
    forall i | |needs| <= i < |r|
      ensures ChildrenPlaced(g, r, i, stack)
    {
      if i >= |next| {
        assert ChildrenPlaced(g, r, i, stack);
      }
    }
  }

  /**
   * What a walk from a fresh collected list and an empty stack produces: the root is last,
   * no type twice, every collected type is reachable from the root, every child of a
   * collected type is collected, and it comes earlier unless the two lie on a cycle.
   */
  lemma DiscoveryOrder(g: GetterMap, root: JavaType)
    ensures var r := Visit(g, root, [], {});
      |r| > 0 && r[|r| - 1] == root && NoDup(r) &&
      (forall i :: 0 <= i < |r| ==> Reaches(g, root, r[i])) &&
      (forall i, c :: 0 <= i < |r| && c in Children(g, r[i]) ==>
         c in r && (c in r[..i] || (Reaches(g, c, r[i]) && Reaches(g, r[i], c))))
  {
    VisitSpec(g, root, [], {});
    var r := Visit(g, root, [], {});
    var empty: set<JavaType> := {};
    assert r == VisitFrom(g, root, 0, [], empty + {root}) + [root];
    FromEmpty(g, root, r);
  }

  lemma FromEmpty(g: GetterMap, root: JavaType, r: seq<JavaType>)
    requires |r| > 0 && r[|r| - 1] == root
    requires NewPart(g, root, r, 0, {}) && PostOrder(g, r, 0, {})
    ensures forall i :: 0 <= i < |r| ==> Reaches(g, root, r[i])
    ensures forall i, c :: 0 <= i < |r| && c in Children(g, r[i]) ==>
      c in r && (c in r[..i] || (Reaches(g, c, r[i]) && Reaches(g, r[i], c)))
  {
    forall i, c | 0 <= i < |r| && c in Children(g, r[i])
      ensures c in r && (c in r[..i] || (Reaches(g, c, r[i]) && Reaches(g, r[i], c)))
    {
      assert ChildrenPlaced(g, r, i, {});
      ChildInWalk(g, r, i, c);
    }
  }

  lemma ChildInWalk(g: GetterMap, r: seq<JavaType>, i: nat, c: JavaType)
    requires i < |r| && c in Children(g, r[i])
    requires c in r[..i] || (c in r[i..] && Reaches(g, c, r[i]))
    ensures c in r && (c in r[..i] || (Reaches(g, c, r[i]) && Reaches(g, r[i], c)))
  {
    if c in r[..i] {
      var m :| 0 <= m < i && r[..i][m] == c;
      assert r[m] == c;
    } else {
      var m :| 0 <= m < |r| - i && r[i..][m] == c;
      assert r[i + m] == c;
      ReachesSelf(g, c);
      ReachesStep(g, r[i], c, c);
    }
  }

  /** The two collections `getAllToConvert` threads through its recursion. */
  class Discovery {
    const getters: GetterMap
    /** The insertion-ordered set of types that need converting. */
    var needsToBeConverted: seq<JavaType>
    /** The types on the current recursion stack. */
    var cycleDetector: set<JavaType>

    constructor (getters: GetterMap)
      ensures this.getters == getters && needsToBeConverted == [] && cycleDetector == {}
    {
      this.getters := getters;
      needsToBeConverted := [];
      cycleDetector := {};
    }

    method GetAllToConvert(toBeConverted: JavaType)
      modifies this
      ensures cycleDetector == old(cycleDetector)
      ensures needsToBeConverted == Visit(getters, toBeConverted, old(needsToBeConverted), old(cycleDetector))
      decreases Measure(getters, toBeConverted, cycleDetector)
    {
      if toBeConverted in needsToBeConverted {
        return;
      }
      if toBeConverted in cycleDetector {
        return;
      }
      MeasureShrinks(getters, toBeConverted, cycleDetector);
      cycleDetector := cycleDetector + {toBeConverted};
      ghost var stack := cycleDetector;
      ghost var needs0 := needsToBeConverted;
      var methods := MethodsOf(getters, toBeConverted);
      var k := 0;
      while k < |methods|
        invariant k <= |methods|
        invariant cycleDetector == stack
        invariant VisitFrom(getters, toBeConverted, 0, needs0, stack) ==
                  VisitFrom(getters, toBeConverted, k, needsToBeConverted, stack)
      {
        match Target(methods[k]) {
          case None =>
          case Some(c) =>
            TargetInUniverse(getters, toBeConverted, k);
            GetAllToConvert(c);
        }
        k := k + 1;
      }
      needsToBeConverted := needsToBeConverted + [toBeConverted];
      cycleDetector := cycleDetector - {toBeConverted};
    }
  }
}
