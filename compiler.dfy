/**
 * The schema compiler of the XML data-binding layer (JAUtilities): per-contract conversion
 * into a schema node, batch compilation of a root and everything it reaches, placeholder
 * resolution, and the two caches (contract to node, generated proxy class to node).
 *
 * Nodes live in an arena `nodes`; a node reference is an index into it, so redirecting a
 * child relation (`setChild`) is an in-place update visible to every holder of the node.
 */
module SchemaCompiler {
  import opened Outcomes
  import opened SchemaDiscovery

  datatype MethodType = Getter | Setter | OtherMethod

  /** What the method classifier reports about one method of a contract. */
  datatype MethodInformation = MethodInformation(
    name: string,                     // the Java method's own name
    methodType: MethodType,
    isKey: bool,
    representedProperty: string,
    defaultValue: string,
    baseChildType: Option<JavaType>,  // the contract of the child, when this accessor denotes one
    isList: bool,
    isArray: bool)

  /** The reflective facts about one contract: its root element name, its classified
      methods, and the method shapes discovery walks over. */
  datatype ContractInfo = ContractInfo(
    rootName: Option<string>,
    methods: seq<MethodInformation>,
    shapes: seq<MethodShape>)

  type Reflection = map<JavaType, ContractInfo>

  function InfoOf(reflection: Reflection, t: JavaType): ContractInfo {
    if t in reflection then reflection[t] else ContractInfo(None, [], [])
  }

  function GetterMapOf(reflection: Reflection): GetterMap {
    map t | t in reflection :: reflection[t].shapes
  }

  type NodeRef = nat

  datatype Property = Property(name: string, defaultValue: string)

  /** A child relation of a node: the property, its cardinality and the child node. */
  datatype ParentedNode = ParentedNode(childName: string, isList: bool, isArray: bool, child: NodeRef)

  /** A schema node (UnparentedNode); a placeholder only names its contract. */
  datatype Node = Node(
    originalInterface: JavaType,
    isPlaceholder: bool,
    rootName: Option<string>,
    keyProperty: Option<string>,
    nonChildProperties: seq<Property>,
    children: seq<ParentedNode>,
    translatedClass: Option<JavaType>)

  function Placeholder(t: JavaType): Node {
    Node(t, true, None, None, [], [], None)
  }

  datatype CompileError =
    | MultipleKeys(contract: JavaType, keyMethod: string, previousKey: string)
    | UnknownChild(childType: JavaType, parent: JavaType)

  // ---------------------------------------------------------------------------------------
  // Classification of a contract's methods

  predicate IsAccessor(m: MethodInformation) {
    m.methodType == Getter || m.methodType == Setter
  }

  predicate IsChildAccessor(m: MethodInformation) {
    IsAccessor(m) && m.baseChildType.Some?
  }

  function PropertyOf(m: MethodInformation): Property {
    Property(m.representedProperty, m.defaultValue)
  }

  // Each of the following describes what the first k methods of a contract contribute;
  // with k = |ms| it describes the whole contract.

  /** The getters and setters among the first k methods, in order. */
  function Accessors(ms: seq<MethodInformation>, k: nat): seq<MethodInformation>
    requires k <= |ms|
  {
    if k == 0 then [] else Accessors(ms, k - 1) + (if IsAccessor(ms[k - 1]) then [ms[k - 1]] else [])
  }

  /** The getters and setters among the first k methods that denote a child relation, in order. */
  function ChildMethods(ms: seq<MethodInformation>, k: nat): seq<MethodInformation>
    requires k <= |ms|
  {
    if k == 0 then [] else ChildMethods(ms, k - 1) + (if IsChildAccessor(ms[k - 1]) then [ms[k - 1]] else [])
  }

  /** The non-child properties the first k methods add, in order. */
  function NonChildProperties(ms: seq<MethodInformation>, k: nat): seq<Property>
    requires k <= |ms|
  {
    if k == 0 then []
    else
      var m := ms[k - 1];
      NonChildProperties(ms, k - 1) + (if IsAccessor(m) && m.baseChildType.None? then [PropertyOf(m)] else [])
  }

  /** The position of the first method at or after `from` that is marked as the key. */
  function FirstKey(ms: seq<MethodInformation>, from: nat): (r: Option<nat>)
    requires from <= |ms|
    ensures r.Some? ==> from <= r.value < |ms| && ms[r.value].isKey
    decreases |ms| - from
  {
    if from == |ms| then None
    else if ms[from].isKey then Some(from)
    else FirstKey(ms, from + 1)
  }

  /** Two methods of the contract are marked as the key. */
  predicate HasTwoKeys(ms: seq<MethodInformation>) {
    var first := FirstKey(ms, 0);
    first.Some? && FirstKey(ms, first.value + 1).Some?
  }

  /** The error for a contract with two key methods: it names the second one and the first one. */
  function MultipleKeysError(contract: JavaType, ms: seq<MethodInformation>): CompileError
    requires HasTwoKeys(ms)
  {
    var first := FirstKey(ms, 0).value;
    MultipleKeys(contract, ms[FirstKey(ms, first + 1).value].name, ms[first].name)
  }

  /** The key property of a contract: the property of its first key method, if any. */
  function KeyProperty(ms: seq<MethodInformation>): Option<string> {
    match FirstKey(ms, 0)
    case None => None
    case Some(i) => Some(ms[i].representedProperty)
  }

  /** FirstKey finds `j` exactly when `j` is a key and nothing between `from` and `j` is. */
  lemma {:induction false} FirstKeyIs(ms: seq<MethodInformation>, from: nat, j: nat)
    requires from <= j < |ms|
    ensures FirstKey(ms, from) == Some(j) <==> ms[j].isKey && forall i :: from <= i < j ==> !ms[i].isKey
    decreases j - from
  {
    if from < j {
      FirstKeyIs(ms, from + 1, j);
    }
  }

  /** FirstKey finds nothing exactly when no method from `from` on is a key. */
  lemma {:induction false} FirstKeyNone(ms: seq<MethodInformation>, from: nat)
    requires from <= |ms|
    ensures FirstKey(ms, from).None? <==> forall i :: from <= i < |ms| ==> !ms[i].isKey
    decreases |ms| - from
  {
    if from < |ms| {
      FirstKeyNone(ms, from + 1);
    }
  }

  /** A child relation is contributed by exactly the getters and setters with a child type;
      a non-child property by exactly those without one. */
  lemma {:induction false} ClassificationSpec(ms: seq<MethodInformation>, k: nat)
    requires k <= |ms|
    ensures forall m :: m in ChildMethods(ms, k) <==> m in ms[..k] && IsChildAccessor(m)
    ensures forall m :: m in Accessors(ms, k) <==> m in ms[..k] && IsAccessor(m)
    ensures forall m :: m in ms[..k] && IsAccessor(m) && m.baseChildType.None? ==> PropertyOf(m) in NonChildProperties(ms, k)
    ensures forall p :: p in NonChildProperties(ms, k) ==>
      exists m :: m in ms[..k] && IsAccessor(m) && m.baseChildType.None? && p == PropertyOf(m)
  {
    if k > 0 {
      ClassificationSpec(ms, k - 1);
      assert ms[..k] == ms[..k - 1] + [ms[k - 1]];
    }
  }

  /** Every getter or setter adds exactly one entry, a child or a non-child property;
      every other method adds none. */
  lemma {:induction false} EachAccessorAddsOneEntry(ms: seq<MethodInformation>, k: nat)
    requires k <= |ms|
    ensures |ChildMethods(ms, k)| + |NonChildProperties(ms, k)| == |Accessors(ms, k)|
  {
    if k > 0 {
      EachAccessorAddsOneEntry(ms, k - 1);
    }
  }

  // ---------------------------------------------------------------------------------------
  // What a compiled node looks like

  /** The fields a converted node takes from its contract. */
  ghost predicate HeaderMatches(node: Node, c: JavaType, info: ContractInfo) {
    node.originalInterface == c && !node.isPlaceholder && node.rootName == info.rootName &&
    node.keyProperty == KeyProperty(info.methods) &&
    node.nonChildProperties == NonChildProperties(info.methods, |info.methods|) &&
    node.translatedClass == Some(Generated(c))
  }

  /** The node at `ref` is the conversion of contract `c`, child relations included. */
  ghost predicate CompiledFrom(ns: seq<Node>, ref: NodeRef, c: JavaType, info: ContractInfo) {
    ref < |ns| && HeaderMatches(ns[ref], c, info) &&
    ChildrenMatch(ns, ns[ref].children, ChildMethods(info.methods, |info.methods|))
  }

  /** One child relation carries the property, cardinality and child contract of its method. */
  ghost predicate RelationMatches(ns: seq<Node>, pn: ParentedNode, m: MethodInformation) {
    m.baseChildType.Some? && pn.childName == m.representedProperty &&
    pn.isList == m.isList && pn.isArray == m.isArray &&
    pn.child < |ns| && ns[pn.child].originalInterface == m.baseChildType.value
  }

  ghost predicate ChildrenMatch(ns: seq<Node>, children: seq<ParentedNode>, cm: seq<MethodInformation>) {
    |children| == |cm| && forall j :: 0 <= j < |children| ==> RelationMatches(ns, children[j], cm[j])
  }

  /** `ref` is the real node the cache holds for its contract. */
  ghost predicate LinkedToCache(ns: seq<Node>, cache: map<JavaType, NodeRef>, ref: NodeRef) {
    ref < |ns| && !ns[ref].isPlaceholder &&
    ns[ref].originalInterface in cache && cache[ns[ref].originalInterface] == ref
  }

  /** Each child is a placeholder or the cached real node of its contract. */
  ghost predicate WellLinked(ns: seq<Node>, cache: map<JavaType, NodeRef>, children: seq<ParentedNode>) {
    forall j :: 0 <= j < |children| ==>
      children[j].child < |ns| && (ns[children[j].child].isPlaceholder || LinkedToCache(ns, cache, children[j].child))
  }

  /** No child is a placeholder: each is the cached real node of its contract. */
  ghost predicate Resolved(ns: seq<Node>, cache: map<JavaType, NodeRef>, children: seq<ParentedNode>) {
    forall j :: 0 <= j < |children| ==> LinkedToCache(ns, cache, children[j].child)
  }

  /** As `convert` leaves the children: the cached node when the child contract was cached,
      otherwise a placeholder allocated at or after `n0`, a different one for each method. */
  ghost predicate FreshOrCached(ns: seq<Node>, n0: nat, cache: map<JavaType, NodeRef>, children: seq<ParentedNode>) {
    (forall j :: 0 <= j < |children| && children[j].child < |ns| ==>
      var t := ns[children[j].child].originalInterface;
      (t in cache ==> children[j].child == cache[t]) &&
      (t !in cache ==> n0 <= children[j].child && ns[children[j].child] == Placeholder(t))) &&
    (forall j1, j2 :: 0 <= j1 < j2 < |children| && n0 <= children[j1].child && n0 <= children[j2].child ==>
      children[j1].child < children[j2].child)
  }

  ghost predicate SameHeads(ns: seq<Node>, ns': seq<Node>) {
    |ns| == |ns'| &&
    forall m :: 0 <= m < |ns| ==>
      ns'[m].originalInterface == ns[m].originalInterface && ns'[m].isPlaceholder == ns[m].isPlaceholder
  }

  ghost predicate CacheExtends(cache: map<JavaType, NodeRef>, cache': map<JavaType, NodeRef>) {
    forall c :: c in cache ==> c in cache' && cache'[c] == cache[c]
  }

  lemma ExtendKeepsLinks(ns: seq<Node>, ns': seq<Node>, cache: map<JavaType, NodeRef>, cache': map<JavaType, NodeRef>,
                         children: seq<ParentedNode>, cm: seq<MethodInformation>)
    requires ns <= ns' && CacheExtends(cache, cache')
    requires ChildrenMatch(ns, children, cm) && WellLinked(ns, cache, children)
    ensures ChildrenMatch(ns', children, cm) && WellLinked(ns', cache', children)
  {
    forall j | 0 <= j < |children|
      ensures RelationMatches(ns', children[j], cm[j])
      ensures ns'[children[j].child].isPlaceholder || LinkedToCache(ns', cache', children[j].child)
    {
      assert RelationMatches(ns, children[j], cm[j]);
      assert ns'[children[j].child] == ns[children[j].child];
    }
  }

  lemma SameHeadsKeepLinks(ns: seq<Node>, ns': seq<Node>, cache: map<JavaType, NodeRef>,
                           children: seq<ParentedNode>, cm: seq<MethodInformation>)
    requires SameHeads(ns, ns')
    ensures ChildrenMatch(ns, children, cm) ==> ChildrenMatch(ns', children, cm)
    ensures WellLinked(ns, cache, children) ==> WellLinked(ns', cache, children)
    ensures Resolved(ns, cache, children) ==> Resolved(ns', cache, children)
  {
    if ChildrenMatch(ns, children, cm) {
      forall j | 0 <= j < |children|
        ensures RelationMatches(ns', children[j], cm[j])
      {
        assert RelationMatches(ns, children[j], cm[j]);
      }
    }
    if WellLinked(ns, cache, children) {
      forall j | 0 <= j < |children|
        ensures ns'[children[j].child].isPlaceholder || LinkedToCache(ns', cache, children[j].child)
      {
        assert ns[children[j].child].isPlaceholder || LinkedToCache(ns, cache, children[j].child);
      }
    }
    if Resolved(ns, cache, children) {
      forall j | 0 <= j < |children|
        ensures LinkedToCache(ns', cache, children[j].child)
      {
        assert LinkedToCache(ns, cache, children[j].child);
      }
    }
  }

  /** `r` is `s` with some elements left out and the others in their order. */
  ghost predicate Subsequence(r: seq<JavaType>, s: seq<JavaType>)
    decreases |s|
  {
    if r == [] then true
    else if s == [] then false
    else if r[0] == s[0] then Subsequence(r[1..], s[1..])
    else Subsequence(r, s[1..])
  }

  /** An insertion-ordered set minus a set of keys: `LinkedHashSet.removeAll` keeps the order. */
  function RemoveAll(s: seq<JavaType>, keys: set<JavaType>): (r: seq<JavaType>)
    ensures forall x :: x in r <==> x in s && x !in keys
    ensures Subsequence(r, s)
    ensures NoDup(s) ==> NoDup(r)
    ensures (forall x :: x in s ==> x in keys) ==> r == []
  {
    if s == [] then []
    else if s[0] in keys then RemoveAll(s[1..], keys)
    else
      assert NoDup(s) ==> NoDup(s[1..]) && s[0] !in s[1..];
      assert ([s[0]] + RemoveAll(s[1..], keys))[1..] == RemoveAll(s[1..], keys);
      [s[0]] + RemoveAll(s[1..], keys)
  }

  /** The discovery walk from a root holds the root, once, and no type twice. */
  lemma DiscoveredOnce(g: GetterMap, root: JavaType)
    ensures root in Visit(g, root, [], {}) && NoDup(Visit(g, root, [], {}))
  {
    DiscoveryOrder(g, root);
  }

  ghost predicate ChildRefsBelow(children: seq<ParentedNode>, bound: nat) {
    forall j :: 0 <= j < |children| ==> children[j].child < bound
  }

  ghost predicate RefsInRange(ns: seq<Node>) {
    forall n :: 0 <= n < |ns| ==> ChildRefsBelow(ns[n].children, |ns|)
  }

  /** Each contract is cached with a real node converted from it, after its proxy was generated. */
  ghost predicate InterfaceCacheOk(ns: seq<Node>, icache: map<JavaType, NodeRef>, pool: set<JavaType>) {
    forall c :: c in icache ==>
      icache[c] < |ns| && !ns[icache[c]].isPlaceholder && ns[icache[c]].originalInterface == c && c in pool
  }

  /** Each proxy class is cached with the real node whose translated class it is. */
  ghost predicate ProxyCacheOk(ns: seq<Node>, pcache: map<JavaType, NodeRef>, pool: set<JavaType>) {
    forall p :: p in pcache ==>
      p.Generated? && pcache[p] < |ns| && !ns[pcache[p]].isPlaceholder &&
      ns[pcache[p]].originalInterface == p.base && ns[pcache[p]].translatedClass == Some(p) && p.base in pool
  }

  ghost predicate CachesAgree(icache: map<JavaType, NodeRef>, pcache: map<JavaType, NodeRef>) {
    (forall c :: c in icache ==> Generated(c) in pcache && pcache[Generated(c)] == icache[c]) &&
    (forall p :: p in pcache ==> p.Generated? && p.base in icache)
  }

  lemma GrowKeepsStructure(ns: seq<Node>, ns': seq<Node>, icache: map<JavaType, NodeRef>,
                           pcache: map<JavaType, NodeRef>, pool: set<JavaType>, pool': set<JavaType>)
    requires ns <= ns' && pool <= pool'
    requires RefsInRange(ns) && InterfaceCacheOk(ns, icache, pool) && ProxyCacheOk(ns, pcache, pool)
    requires forall n :: |ns| <= n < |ns'| ==> ChildRefsBelow(ns'[n].children, |ns'|)
    ensures RefsInRange(ns') && InterfaceCacheOk(ns', icache, pool') && ProxyCacheOk(ns', pcache, pool')
  {
    forall n | 0 <= n < |ns'|
      ensures ChildRefsBelow(ns'[n].children, |ns'|)
    {
      if n < |ns| {
        assert ns'[n] == ns[n];
        assert ChildRefsBelow(ns[n].children, |ns|);
      }
    }
    forall c | c in icache
      ensures ns'[icache[c]] == ns[icache[c]]
    {
    }
    forall p | p in pcache
      ensures ns'[pcache[p]] == ns[pcache[p]]
    {
    }
  }

  lemma GrowKeepsChildren(ns: seq<Node>, ns': seq<Node>, n0: nat, cache: map<JavaType, NodeRef>,
                          children: seq<ParentedNode>, cm: seq<MethodInformation>)
    requires ns <= ns'
    requires ChildrenMatch(ns, children, cm) && FreshOrCached(ns, n0, cache, children)
    ensures ChildrenMatch(ns', children, cm) && FreshOrCached(ns', n0, cache, children)
  {
    forall j | 0 <= j < |children|
      ensures ns'[children[j].child] == ns[children[j].child]
    {
      assert RelationMatches(ns, children[j], cm[j]);
    }
  }

  /** Adding a relation to a fresh placeholder appended at the end of the arena. */
  lemma AddFreshChild(ns: seq<Node>, n0: nat, cache: map<JavaType, NodeRef>,
                      children: seq<ParentedNode>, cm: seq<MethodInformation>, m: MethodInformation)
    requires n0 <= |ns| && m.baseChildType.Some? && m.baseChildType.value !in cache
    requires ChildrenMatch(ns, children, cm) && FreshOrCached(ns, n0, cache, children)
    ensures var ns' := ns + [Placeholder(m.baseChildType.value)];
      var pn := ParentedNode(m.representedProperty, m.isList, m.isArray, |ns|);
      ChildrenMatch(ns', children + [pn], cm + [m]) && FreshOrCached(ns', n0, cache, children + [pn])
  {
    var ns' := ns + [Placeholder(m.baseChildType.value)];
    GrowKeepsChildren(ns, ns', n0, cache, children, cm);
    forall j | 0 <= j < |children|
      ensures children[j].child < |ns|
    {
      assert RelationMatches(ns, children[j], cm[j]);
    }
  }

  /** Adding a relation to the node the cache already holds for the child contract. */
  lemma AddCachedChild(ns: seq<Node>, n0: nat, cache: map<JavaType, NodeRef>,
                       children: seq<ParentedNode>, cm: seq<MethodInformation>, m: MethodInformation)
    requires m.baseChildType.Some? && m.baseChildType.value in cache
    requires cache[m.baseChildType.value] < n0 && cache[m.baseChildType.value] < |ns|
    requires ns[cache[m.baseChildType.value]].originalInterface == m.baseChildType.value
    requires ChildrenMatch(ns, children, cm) && FreshOrCached(ns, n0, cache, children)
    ensures var pn := ParentedNode(m.representedProperty, m.isList, m.isArray, cache[m.baseChildType.value]);
      ChildrenMatch(ns, children + [pn], cm + [m]) && FreshOrCached(ns, n0, cache, children + [pn])
  {
  }

  /** The pieces of the node under construction, and the arena grown by the placeholders it needed. */
  datatype Classified = Classified(
    arena: seq<Node>,
    keyProperty: Option<string>,
    nonChildProperties: seq<Property>,
    children: seq<ParentedNode>)

  /** What one method adds to the node under construction, apart from the key: a getter or
      setter adds a child relation (to the cached node of the child contract, or else to a new
      placeholder) or a non-child property; any other method adds nothing. */
  function Contribute(acc: Classified, m: MethodInformation, cache: map<JavaType, NodeRef>): Classified {
    if !IsAccessor(m) then acc
    else if m.baseChildType.None? then acc.(nonChildProperties := acc.nonChildProperties + [PropertyOf(m)])
    else
      var base := m.baseChildType.value;
      if base in cache then
        acc.(children := acc.children + [ParentedNode(m.representedProperty, m.isList, m.isArray, cache[base])])
      else
        // a placeholder, resolved once the whole batch is converted
        acc.(arena := acc.arena + [Placeholder(base)],
             children := acc.children + [ParentedNode(m.representedProperty, m.isList, m.isArray, |acc.arena|)])
  }

  /** The non-key state after the first k methods of a contract, starting from the arena `nodes`. */
  ghost predicate ClassifiedUpTo(ms: seq<MethodInformation>, k: nat, nodes: seq<Node>,
                                 cache: map<JavaType, NodeRef>, acc: Classified)
    requires k <= |ms|
  {
    nodes <= acc.arena &&
    (forall n :: |nodes| <= n < |acc.arena| ==> acc.arena[n].isPlaceholder && acc.arena[n].children == []) &&
    acc.nonChildProperties == NonChildProperties(ms, k) &&
    ChildrenMatch(acc.arena, acc.children, ChildMethods(ms, k)) &&
    FreshOrCached(acc.arena, |nodes|, cache, acc.children)
  }

  lemma ContributeKeeps(ms: seq<MethodInformation>, k: nat, nodes: seq<Node>,
                        cache: map<JavaType, NodeRef>, acc: Classified)
    requires k < |ms| && ClassifiedUpTo(ms, k, nodes, cache, acc)
    requires forall t :: t in cache ==> cache[t] < |nodes| && nodes[cache[t]].originalInterface == t
    ensures ClassifiedUpTo(ms, k + 1, nodes, cache, Contribute(acc, ms[k], cache))
    ensures Contribute(acc, ms[k], cache).keyProperty == acc.keyProperty
  {
    var m := ms[k];
    var cm := ChildMethods(ms, k);
    if IsAccessor(m) && m.baseChildType.Some? {
      var base := m.baseChildType.value;
      if base in cache {
        assert acc.arena[cache[base]] == nodes[cache[base]];
        AddCachedChild(acc.arena, |nodes|, cache, acc.children, cm, m);
      } else {
        AddFreshChild(acc.arena, |nodes|, cache, acc.children, cm, m);
      }
    }
  }

  /**
   * The method loop of `convert`: each method in order may set the key (a second key is an
   * error naming both methods), and then contributes to the node.
   */
  method ClassifyMethods(convertMe: JavaType, ms: seq<MethodInformation>, nodes: seq<Node>,
                         cache: map<JavaType, NodeRef>) returns (r: Result<Classified, CompileError>)
    requires forall t :: t in cache ==> cache[t] < |nodes| && nodes[cache[t]].originalInterface == t
    ensures r.Err? <==> HasTwoKeys(ms)
    ensures r.Err? ==> r.error == MultipleKeysError(convertMe, ms)
    ensures r.Ok? ==> r.value.keyProperty == KeyProperty(ms) && ClassifiedUpTo(ms, |ms|, nodes, cache, r.value)
  {
    var acc := Classified(nodes, None, [], []);
    var foundKey: Option<MethodInformation> := None;
    ghost var firstKey: nat := 0;
    var k := 0;
    while k < |ms|
      invariant k <= |ms|
      invariant foundKey.None? ==> acc.keyProperty.None? && forall i :: 0 <= i < k ==> !ms[i].isKey
      invariant foundKey.Some? ==>
        firstKey < k && foundKey.value == ms[firstKey] && ms[firstKey].isKey &&
        acc.keyProperty == Some(ms[firstKey].representedProperty) &&
        forall i :: 0 <= i < k && i != firstKey ==> !ms[i].isKey
      invariant ClassifiedUpTo(ms, k, nodes, cache, acc)
    {
      var mi := ms[k];
      if mi.isKey {
        if foundKey.Some? {
          FirstKeyIs(ms, 0, firstKey);
          FirstKeyIs(ms, firstKey + 1, k);
          return Err(MultipleKeys(convertMe, mi.name, foundKey.value.name));
        }
        foundKey := Some(mi);
        firstKey := k;
        acc := acc.(keyProperty := Some(mi.representedProperty));
      }
      ContributeKeeps(ms, k, nodes, cache, acc);
      acc := Contribute(acc, mi, cache);
      k := k + 1;
    }
    if foundKey.Some? {
      FirstKeyIs(ms, 0, firstKey);
      FirstKeyNone(ms, firstKey + 1);
    } else {
      FirstKeyNone(ms, 0);
    }
    return Ok(acc);
  }

  /** Appending the converted node and registering it under its proxy class keeps the
      arena and the caches well formed. */
  lemma RegisterConverted(c: JavaType, info: ContractInfo, ns: seq<Node>, icache: map<JavaType, NodeRef>,
                          pcache: map<JavaType, NodeRef>, pool: set<JavaType>, pool': set<JavaType>,
                          acc: Classified, arena: seq<Node>)
    requires RefsInRange(ns) && InterfaceCacheOk(ns, icache, pool) && ProxyCacheOk(ns, pcache, pool)
    requires pool' == pool + {c}
    requires ClassifiedUpTo(info.methods, |info.methods|, ns, icache, acc) && acc.keyProperty == KeyProperty(info.methods)
    requires arena == acc.arena + [Node(c, false, info.rootName, acc.keyProperty, acc.nonChildProperties, acc.children, Some(Generated(c)))]
    ensures ns <= arena && |ns| <= |arena| - 1
    ensures forall n :: |ns| <= n < |arena| - 1 ==> arena[n].isPlaceholder && arena[n].children == []
    ensures RefsInRange(arena) && InterfaceCacheOk(arena, icache, pool')
    ensures ProxyCacheOk(arena, pcache[Generated(c) := |arena| - 1], pool')
    ensures CompiledFrom(arena, |arena| - 1, c, info)
    ensures FreshOrCached(arena, |ns|, icache, arena[|arena| - 1].children)
  {
    var ms := info.methods;
    GrowKeepsChildren(acc.arena, arena, |ns|, icache, acc.children, ChildMethods(ms, |ms|));
    forall j | 0 <= j < |acc.children|
      ensures acc.children[j].child < |arena|
    {
      assert RelationMatches(arena, acc.children[j], ChildMethods(ms, |ms|)[j]);
    }
    GrowKeepsStructure(ns, arena, icache, pcache, pool, pool');
  }

  /** `b` is `a` with some child relations redirected to another node of the same contract. */
  ghost predicate Relinked(ns: seq<Node>, a: Node, b: Node) {
    b == a.(children := b.children) && |b.children| == |a.children| &&
    forall j :: 0 <= j < |a.children| ==>
      b.children[j] == a.children[j].(child := b.children[j].child) &&
      a.children[j].child < |ns| && b.children[j].child < |ns| &&
      ns[b.children[j].child].originalInterface == ns[a.children[j].child].originalInterface
  }

  /**
   * The resolution loop over the children of one node: each placeholder child is redirected
   * to the cached node of its contract, and the first placeholder whose contract is not
   * cached stops the loop and is reported.
   */
  method RelinkChildren(ns: seq<Node>, cache: map<JavaType, NodeRef>, node: Node)
    returns (children: seq<ParentedNode>, missing: Option<JavaType>)
    requires ChildRefsBelow(node.children, |ns|) && WellLinked(ns, cache, node.children) && CacheReal(ns, cache)
    ensures Relinked(ns, node, node.(children := children))
    ensures missing.None? ==> Resolved(ns, cache, children)
    ensures missing.Some? ==>
      missing.value !in cache &&
      exists j :: 0 <= j < |node.children| &&
        ns[node.children[j].child].isPlaceholder && ns[node.children[j].child].originalInterface == missing.value
  {
    children := node.children;
    var j := 0;
    while j < |children|
      invariant j <= |children| && |children| == |node.children|
      invariant Relinked(ns, node, node.(children := children))
      invariant forall i :: 0 <= i < j ==> LinkedToCache(ns, cache, children[i].child)
      invariant forall i :: j <= i < |children| ==> children[i] == node.children[i]
    {
      var child := children[j];
      if ns[child.child].isPlaceholder {
        var t := ns[child.child].originalInterface;
        if t !in cache {
          return children, Some(t);
        }
        children := children[j := child.(child := cache[t])];
      }
      j := j + 1;
    }
    missing := None;
  }

  /** Writing back a relinked node keeps every node's contract and kind, and the caches well formed. */
  lemma WriteBack(ns: seq<Node>, ref: NodeRef, children: seq<ParentedNode>, icache: map<JavaType, NodeRef>,
                  pcache: map<JavaType, NodeRef>, pool: set<JavaType>)
    requires ref < |ns| && Relinked(ns, ns[ref], ns[ref].(children := children))
    requires RefsInRange(ns) && InterfaceCacheOk(ns, icache, pool) && ProxyCacheOk(ns, pcache, pool)
    ensures var ns' := ns[ref := ns[ref].(children := children)];
      SameHeads(ns, ns') && RefsInRange(ns') && InterfaceCacheOk(ns', icache, pool) && ProxyCacheOk(ns', pcache, pool)
  {
    var ns' := ns[ref := ns[ref].(children := children)];
    forall n | 0 <= n < |ns'|
      ensures ChildRefsBelow(ns'[n].children, |ns'|)
    {
      if n != ref {
        assert ChildRefsBelow(ns[n].children, |ns|);
      }
    }
  }

  /** A conversion stays a conversion when its children are relinked and no node changes kind. */
  lemma RelinkKeepsCompiled(ns: seq<Node>, ns': seq<Node>, ref: NodeRef, c: JavaType, info: ContractInfo)
    requires CompiledFrom(ns, ref, c, info) && SameHeads(ns, ns') && Relinked(ns, ns[ref], ns'[ref])
    ensures CompiledFrom(ns', ref, c, info)
  {
    var cm := ChildMethods(info.methods, |info.methods|);
    forall j | 0 <= j < |ns'[ref].children|
      ensures RelationMatches(ns', ns'[ref].children[j], cm[j])
    {
      assert RelationMatches(ns, ns[ref].children[j], cm[j]);
    }
  }

  /** Relinking only depends on the contract of each node, so nodes of unchanged contract keep it. */
  lemma RelinkedUnderSameHeads(ns: seq<Node>, ns': seq<Node>, a: Node, b: Node)
    requires SameHeads(ns, ns') && Relinked(ns', a, b)
    ensures Relinked(ns, a, b)
  {
  }

  /** Contract `c` was converted in this batch into node `ref`, registered in the cache. */
  ghost predicate Contributed(ns: seq<Node>, n0: nat, cache: map<JavaType, NodeRef>, reflection: Reflection,
                              c: JavaType, ref: NodeRef) {
    c in cache && cache[c] == ref && n0 <= ref &&
    CompiledFrom(ns, ref, c, InfoOf(reflection, c)) && WellLinked(ns, cache, ns[ref].children)
  }

  /** The first k contracts of the batch were converted, into the nodes `refs`. */
  ghost predicate ContributedUpTo(ns: seq<Node>, n0: nat, cache: map<JavaType, NodeRef>, reflection: Reflection,
                                  needs: seq<JavaType>, k: nat, refs: seq<NodeRef>) {
    k <= |needs| && |refs| == k &&
    forall i :: 0 <= i < k ==> Contributed(ns, n0, cache, reflection, needs[i], refs[i])
  }

  /** The children `convert` leaves are placeholders or cached nodes. */
  lemma FreshOrCachedLinked(ns: seq<Node>, n0: nat, cache: map<JavaType, NodeRef>, children: seq<ParentedNode>)
    requires FreshOrCached(ns, n0, cache, children) && ChildRefsBelow(children, |ns|) && CacheReal(ns, cache)
    ensures WellLinked(ns, cache, children)
  {
    forall j | 0 <= j < |children|
      ensures ns[children[j].child].isPlaceholder || LinkedToCache(ns, cache, children[j].child)
    {
      var t := ns[children[j].child].originalInterface;
      if t !in cache {
        assert ns[children[j].child] == Placeholder(t);
      }
    }
  }

  /** The well-formedness of the arena and the two caches, stated on values. */
  ghost predicate CachesOk(ns: seq<Node>, icache: map<JavaType, NodeRef>, pcache: map<JavaType, NodeRef>,
                           pool: set<JavaType>) {
    RefsInRange(ns) && InterfaceCacheOk(ns, icache, pool) && ProxyCacheOk(ns, pcache, pool) &&
    CachesAgree(icache, pcache)
  }

  /** Where the conversion loop stands after the first k contracts of the batch. */
  ghost predicate BatchState(ns: seq<Node>, icache: map<JavaType, NodeRef>, n0: nat, cache0: map<JavaType, NodeRef>,
                             reflection: Reflection, needs: seq<JavaType>, k: nat, refs: seq<NodeRef>) {
    k <= |needs| && CacheExtends(cache0, icache) &&
    ContributedUpTo(ns, n0, icache, reflection, needs, k, refs) &&
    (forall c :: c in icache && c !in cache0 ==> c in needs[..k]) &&
    (forall i :: k <= i < |needs| ==> needs[i] !in icache)
  }

  /** Registering the next conversion of the batch keeps the earlier ones. */
  lemma ExtendContributions(ns: seq<Node>, ns': seq<Node>, n0: nat, cache: map<JavaType, NodeRef>,
                            reflection: Reflection, needs: seq<JavaType>, k: nat, refs: seq<NodeRef>, ref: NodeRef)
    requires ContributedUpTo(ns, n0, cache, reflection, needs, k, refs) && k < |needs| && needs[k] !in cache
    requires ns <= ns' && n0 <= ref && CompiledFrom(ns', ref, needs[k], InfoOf(reflection, needs[k]))
    requires WellLinked(ns', cache, ns'[ref].children)
    ensures ContributedUpTo(ns', n0, cache[needs[k] := ref], reflection, needs, k + 1, refs + [ref])
  {
    var cache' := cache[needs[k] := ref];
    forall i | 0 <= i < k + 1
      ensures Contributed(ns', n0, cache', reflection, needs[i], (refs + [ref])[i])
    {
      if i < k {
        var c := needs[i];
        var info := InfoOf(reflection, c);
        assert Contributed(ns, n0, cache, reflection, c, refs[i]);
        ExtendKeepsLinks(ns, ns', cache, cache', ns[refs[i]].children, ChildMethods(info.methods, |info.methods|));
      } else {
        var info := InfoOf(reflection, needs[k]);
        ExtendKeepsLinks(ns', ns', cache, cache', ns'[ref].children, ChildMethods(info.methods, |info.methods|));
      }
    }
  }

  /** Registering a freshly converted contract keeps the arena and the caches well formed. */
  lemma RegisterKeepsCaches(ns: seq<Node>, icache: map<JavaType, NodeRef>, pcache0: map<JavaType, NodeRef>,
                            pcache: map<JavaType, NodeRef>, pool: set<JavaType>, c: JavaType, ref: NodeRef)
    requires RefsInRange(ns) && InterfaceCacheOk(ns, icache, pool) && ProxyCacheOk(ns, pcache, pool)
    requires CachesAgree(icache, pcache0) && pcache == pcache0[Generated(c) := ref] && c in pool
    requires ref < |ns| && !ns[ref].isPlaceholder && ns[ref].originalInterface == c
    ensures CachesOk(ns, icache[c := ref], pcache, pool)
  {
  }

  /** One round of the conversion loop: `convert` turned `needs[k]` into `ref`, and it is put
      into the interface cache. */
  lemma BatchStep(before: seq<Node>, ns: seq<Node>, icache: map<JavaType, NodeRef>, pool: set<JavaType>, n0: nat,
                  cache0: map<JavaType, NodeRef>, reflection: Reflection, needs: seq<JavaType>, k: nat,
                  refs: seq<NodeRef>, ref: NodeRef)
    requires BatchState(before, icache, n0, cache0, reflection, needs, k, refs) && k < |needs| && NoDup(needs)
    requires before <= ns && n0 <= |before| <= ref && RefsInRange(ns) && InterfaceCacheOk(ns, icache, pool)
    requires CompiledFrom(ns, ref, needs[k], InfoOf(reflection, needs[k]))
    requires FreshOrCached(ns, |before|, icache, ns[ref].children)
    ensures BatchState(ns, icache[needs[k] := ref], n0, cache0, reflection, needs, k + 1, refs + [ref])
  {
    assert ChildRefsBelow(ns[ref].children, |ns|);
    FreshOrCachedLinked(ns, |before|, icache, ns[ref].children);
    ExtendContributions(before, ns, n0, icache, reflection, needs, k, refs, ref);
    var icache' := icache[needs[k] := ref];
    forall c | c in icache' && c !in cache0
      ensures c in needs[..k + 1]
    {
      if c != needs[k] {
        assert c in needs[..k];
      }
    }
    forall i | k + 1 <= i < |needs|
      ensures needs[i] !in icache'
    {
      assert needs[i] != needs[k];
    }
  }

  /** The conversion loop stopped at `needs[k]`: every contract before it was converted and
      cached, none from it on. */
  ghost predicate StoppedAt(needs: seq<JavaType>, k: nat, cache: map<JavaType, NodeRef>, reflection: Reflection) {
    k < |needs| &&
    (forall i :: 0 <= i < k ==> needs[i] in cache && !HasTwoKeys(InfoOf(reflection, needs[i]).methods)) &&
    (forall i :: k <= i < |needs| ==> needs[i] !in cache)
  }

  ghost predicate Ascending(refs: seq<NodeRef>) {
    forall i, j :: 0 <= i < j < |refs| ==> refs[i] < refs[j]
  }

  ghost predicate AllBelow(refs: seq<NodeRef>, bound: nat) {
    forall i :: 0 <= i < |refs| ==> refs[i] < bound
  }

  /** A node allocated after all earlier ones extends an ascending sequence of references. */
  lemma AppendAscending(refs: seq<NodeRef>, bound: nat, bound': nat, ref: NodeRef)
    requires Ascending(refs) && AllBelow(refs, bound) && bound <= ref < bound'
    ensures Ascending(refs + [ref]) && AllBelow(refs + [ref], bound')
  {
  }

  /** The contracts `needs` are cached, and were converted in this order: each node was
      allocated after the nodes of the contracts before it. */
  ghost predicate ConvertedInOrder(needs: seq<JavaType>, cache: map<JavaType, NodeRef>) {
    forall i, j :: 0 <= i < j < |needs| ==> needs[i] in cache && needs[j] in cache && cache[needs[i]] < cache[needs[j]]
  }

  /** Node `parent` has a child relation to a placeholder of contract `t`. */
  ghost predicate HasPlaceholderChild(ns: seq<Node>, parent: NodeRef, t: JavaType) {
    parent < |ns| &&
    exists j :: 0 <= j < |ns[parent].children| && ns[parent].children[j].child < |ns| &&
      ns[ns[parent].children[j].child].isPlaceholder && ns[ns[parent].children[j].child].originalInterface == t
  }

  /** A getter or setter of contract `c` denotes a child of contract `t`. */
  ghost predicate DeclaresChild(reflection: Reflection, c: JavaType, t: JavaType) {
    exists m :: m in InfoOf(reflection, c).methods && IsChildAccessor(m) && m.baseChildType == Some(t)
  }

  /** Every child contract that a contract of `within` declares is in `within` or in `known`. */
  ghost predicate ChildrenClosed(reflection: Reflection, within: seq<JavaType>, known: set<JavaType>) {
    forall c, t :: c in within && DeclaresChild(reflection, c, t) ==> t in within || t in known
  }

  /** A placeholder child of a compiled node stands for a child its contract declares. */
  lemma CompiledChildDeclared(ns: seq<Node>, ref: NodeRef, c: JavaType, reflection: Reflection, t: JavaType)
    requires CompiledFrom(ns, ref, c, InfoOf(reflection, c)) && HasPlaceholderChild(ns, ref, t)
    ensures DeclaresChild(reflection, c, t)
  {
    var ms := InfoOf(reflection, c).methods;
    var cm := ChildMethods(ms, |ms|);
    var children := ns[ref].children;
    var j :| 0 <= j < |children| && children[j].child < |ns| &&
      ns[children[j].child].isPlaceholder && ns[children[j].child].originalInterface == t;
    assert RelationMatches(ns, children[j], cm[j]);
    ClassificationSpec(ms, |ms|);
    assert cm[j] in cm;
    assert ms[..|ms|] == ms;
  }

  /** The unknown child a batch reports is a child its parent's contract declares. */
  lemma PlaceholderChildDeclared(ns: seq<Node>, n0: nat, cache: map<JavaType, NodeRef>, reflection: Reflection,
                                 needs: seq<JavaType>, refs: seq<NodeRef>, parent: JavaType, t: JavaType)
    requires ContributedUpTo(ns, n0, cache, reflection, needs, |needs|, refs)
    requires exists i :: 0 <= i < |refs| && HasPlaceholderChild(ns, refs[i], t) && parent == ns[refs[i]].originalInterface
    ensures DeclaresChild(reflection, parent, t)
  {
    var i :| 0 <= i < |refs| && HasPlaceholderChild(ns, refs[i], t) && parent == ns[refs[i]].originalInterface;
    assert Contributed(ns, n0, cache, reflection, needs[i], refs[i]);
    CompiledChildDeclared(ns, refs[i], needs[i], reflection, t);
  }

  /** Each cache entry is a real node of its contract. */
  ghost predicate CacheReal(ns: seq<Node>, cache: map<JavaType, NodeRef>) {
    forall c :: c in cache ==> cache[c] < |ns| && !ns[cache[c]].isPlaceholder && ns[cache[c]].originalInterface == c
  }

  /** Only the nodes `contribs` changed, each only by relinking its children. */
  ghost predicate Touched(ns0: seq<Node>, ns: seq<Node>, contribs: seq<NodeRef>) {
    SameHeads(ns0, ns) &&
    (forall n :: 0 <= n < |ns| && n !in contribs ==> ns[n] == ns0[n]) &&
    (forall i :: 0 <= i < |contribs| ==> contribs[i] < |ns0| && Relinked(ns0, ns0[contribs[i]], ns[contribs[i]]))
  }

  /** The resolution loop has relinked, in place, the first k contributions and nothing else. */
  ghost predicate RelinkedUpTo(ns0: seq<Node>, ns: seq<Node>, contribs: seq<NodeRef>, k: nat) {
    k <= |contribs| && SameHeads(ns0, ns) &&
    (forall n :: 0 <= n < |ns| && n !in contribs[..k] ==> ns[n] == ns0[n]) &&
    (forall i :: 0 <= i < k ==> contribs[i] < |ns0| && Relinked(ns0, ns0[contribs[i]], ns[contribs[i]]))
  }

  ghost predicate ResolvedUpTo(ns: seq<Node>, cache: map<JavaType, NodeRef>, contribs: seq<NodeRef>, k: nat) {
    forall i :: 0 <= i < k && i < |contribs| ==> contribs[i] < |ns| && Resolved(ns, cache, ns[contribs[i]].children)
  }

  ghost predicate Distinct(refs: seq<NodeRef>) {
    forall i, j :: 0 <= i < j < |refs| ==> refs[i] != refs[j]
  }

  /** The next contribution is still as converted, and still well linked. */
  lemma ResolveNext(ns0: seq<Node>, ns: seq<Node>, cache: map<JavaType, NodeRef>, contribs: seq<NodeRef>, k: nat)
    requires RelinkedUpTo(ns0, ns, contribs, k) && k < |contribs| && Distinct(contribs) && contribs[k] < |ns0|
    requires WellLinked(ns0, cache, ns0[contribs[k]].children) && RefsInRange(ns0) && CacheReal(ns0, cache)
    ensures ns[contribs[k]] == ns0[contribs[k]] && WellLinked(ns, cache, ns[contribs[k]].children)
    ensures ChildRefsBelow(ns[contribs[k]].children, |ns|) && CacheReal(ns, cache)
  {
    assert contribs[k] !in contribs[..k];
    SameHeadsKeepLinks(ns0, ns, cache, ns0[contribs[k]].children, []);
  }

  /** One round of the resolution loop: the k-th contribution was relinked in place. */
  lemma ResolveStep(ns0: seq<Node>, ns: seq<Node>, ns': seq<Node>, cache: map<JavaType, NodeRef>,
                    contribs: seq<NodeRef>, k: nat)
    requires RelinkedUpTo(ns0, ns, contribs, k) && k < |contribs| && Distinct(contribs) && contribs[k] < |ns0|
    requires |ns'| == |ns| && ns' == ns[contribs[k] := ns'[contribs[k]]] && SameHeads(ns, ns')
    requires Relinked(ns, ns[contribs[k]], ns'[contribs[k]])
    ensures RelinkedUpTo(ns0, ns', contribs, k + 1)
    ensures ResolvedUpTo(ns, cache, contribs, k) && Resolved(ns, cache, ns'[contribs[k]].children) ==>
      ResolvedUpTo(ns', cache, contribs, k + 1)
  {
    assert contribs[k] !in contribs[..k];
    assert ns[contribs[k]] == ns0[contribs[k]];
    RelinkedUnderSameHeads(ns0, ns, ns0[contribs[k]], ns'[contribs[k]]);
    assert contribs[..k + 1] == contribs[..k] + [contribs[k]];
    if ResolvedUpTo(ns, cache, contribs, k) && Resolved(ns, cache, ns'[contribs[k]].children) {
      SameHeadsKeepLinks(ns, ns', cache, ns'[contribs[k]].children, []);
      forall i | 0 <= i < k
        ensures Resolved(ns', cache, ns'[contribs[i]].children)
      {
        assert ns'[contribs[i]] == ns[contribs[i]];
        SameHeadsKeepLinks(ns, ns', cache, ns[contribs[i]].children, []);
      }
    }
  }

  /** The contributions the loop did not reach are unchanged, hence trivially relinked. */
  lemma RelinkedRest(ns0: seq<Node>, ns: seq<Node>, contribs: seq<NodeRef>, k: nat)
    requires RelinkedUpTo(ns0, ns, contribs, k) && RefsInRange(ns0) && Distinct(contribs)
    requires forall i :: 0 <= i < |contribs| ==> contribs[i] < |ns0|
    ensures Touched(ns0, ns, contribs)
  {
    forall i | k <= i < |contribs|
      ensures Relinked(ns0, ns0[contribs[i]], ns[contribs[i]])
    {
      assert contribs[i] !in contribs[..k];
      assert ChildRefsBelow(ns0[contribs[i]].children, |ns0|);
    }
  }

  /** Relinking keeps the arena and the caches well formed. */
  lemma TouchedKeepsCaches(ns: seq<Node>, ns': seq<Node>, contribs: seq<NodeRef>, icache: map<JavaType, NodeRef>,
                           pcache: map<JavaType, NodeRef>, pool: set<JavaType>)
    requires Touched(ns, ns', contribs) && CachesOk(ns, icache, pcache, pool)
    ensures CachesOk(ns', icache, pcache, pool)
  {
    forall n | 0 <= n < |ns'|
      ensures ChildRefsBelow(ns'[n].children, |ns'|)
    {
      if n in contribs {
        var i :| 0 <= i < |contribs| && contribs[i] == n;
        assert Relinked(ns, ns[contribs[i]], ns'[contribs[i]]);
      } else {
        assert ChildRefsBelow(ns[n].children, |ns|);
      }
    }
  }

  /**
   * The resolution loop of `convertRootAndLeaves` over the nodes of the batch, in order: each
   * placeholder child is redirected to the cached node of its contract, and the first one
   * whose contract is not cached aborts the loop, leaving the earlier redirections in place.
   */
  method RelinkAll(ns: seq<Node>, cache: map<JavaType, NodeRef>, contribs: seq<NodeRef>)
    returns (ns': seq<Node>, failure: Option<CompileError>)
    requires RefsInRange(ns) && CacheReal(ns, cache) && Distinct(contribs)
    requires forall i :: 0 <= i < |contribs| ==>
      contribs[i] < |ns| && !ns[contribs[i]].isPlaceholder && WellLinked(ns, cache, ns[contribs[i]].children)
    ensures Touched(ns, ns', contribs)
    ensures contribs == [] ==> ns' == ns && failure == None
    ensures failure.None? ==> ResolvedUpTo(ns', cache, contribs, |contribs|)
    ensures failure.Some? ==>
      failure.value.UnknownChild? && failure.value.childType !in cache &&
      exists i :: 0 <= i < |contribs| && failure.value.parent == ns[contribs[i]].originalInterface &&
        HasPlaceholderChild(ns, contribs[i], failure.value.childType)
  {
    ns' := ns;
    var k := 0;
    while k < |contribs|
      invariant k <= |contribs| && RelinkedUpTo(ns, ns', contribs, k) && ResolvedUpTo(ns', cache, contribs, k)
    {
      var ref := contribs[k];
      ResolveNext(ns, ns', cache, contribs, k);
      var node := ns'[ref];
      var children, missing := RelinkChildren(ns', cache, node);
      var next := ns'[ref := node.(children := children)];
      ResolveStep(ns, ns', next, cache, contribs, k);
      ns' := next;
      if missing.Some? {
        var j :| 0 <= j < |node.children| &&
          ns'[node.children[j].child].isPlaceholder && ns'[node.children[j].child].originalInterface == missing.value;
        assert node == ns[ref] && node.children[j].child < |ns|;
        assert HasPlaceholderChild(ns, ref, missing.value);
        RelinkedRest(ns, ns', contribs, k + 1);
        return ns', Some(UnknownChild(missing.value, node.originalInterface));
      }
      k := k + 1;
    }
    RelinkedRest(ns, ns', contribs, k);
    failure := None;
  }

  /** The contributions of a completed batch are distinct real nodes, well linked, after `n0`. */
  lemma ContributionsReady(ns: seq<Node>, n0: nat, cache: map<JavaType, NodeRef>, reflection: Reflection,
                           needs: seq<JavaType>, refs: seq<NodeRef>)
    requires ContributedUpTo(ns, n0, cache, reflection, needs, |needs|, refs) && NoDup(needs)
    ensures Distinct(refs)
    ensures forall i :: 0 <= i < |refs| ==>
      n0 <= refs[i] < |ns| && !ns[refs[i]].isPlaceholder && WellLinked(ns, cache, ns[refs[i]].children)
    ensures forall i :: 0 <= i < |refs| ==> ns[refs[i]].originalInterface == needs[i] && needs[i] in cache
    ensures Ascending(refs) ==> ConvertedInOrder(needs, cache)
  {
    forall i, j | 0 <= i < j < |refs|
      ensures refs[i] != refs[j]
    {
      assert Contributed(ns, n0, cache, reflection, needs[i], refs[i]);
      assert Contributed(ns, n0, cache, reflection, needs[j], refs[j]);
    }
    forall i | 0 <= i < |refs|
      ensures n0 <= refs[i] < |ns| && !ns[refs[i]].isPlaceholder && WellLinked(ns, cache, ns[refs[i]].children)
      ensures ns[refs[i]].originalInterface == needs[i] && needs[i] in cache
    {
      assert Contributed(ns, n0, cache, reflection, needs[i], refs[i]);
    }
    if Ascending(refs) {
      forall i, j | 0 <= i < j < |needs|
        ensures needs[i] in cache && needs[j] in cache && cache[needs[i]] < cache[needs[j]]
      {
        assert Contributed(ns, n0, cache, reflection, needs[i], refs[i]);
        assert Contributed(ns, n0, cache, reflection, needs[j], refs[j]);
      }
    }
  }

  /** After resolution every contract of the batch is compiled, with only resolved children. */
  lemma BatchResolved(ns1: seq<Node>, ns2: seq<Node>, n0: nat, cache0: map<JavaType, NodeRef>,
                      cache: map<JavaType, NodeRef>, reflection: Reflection, needs: seq<JavaType>, refs: seq<NodeRef>)
    requires ContributedUpTo(ns1, n0, cache, reflection, needs, |needs|, refs)
    requires forall c :: c in cache && c !in cache0 ==> c in needs
    requires Touched(ns1, ns2, refs) && ResolvedUpTo(ns2, cache, refs, |refs|)
    ensures forall c :: c in cache && c !in cache0 ==>
      CompiledFrom(ns2, cache[c], c, InfoOf(reflection, c)) && Resolved(ns2, cache, ns2[cache[c]].children)
  {
    forall c | c in cache && c !in cache0
      ensures CompiledFrom(ns2, cache[c], c, InfoOf(reflection, c)) && Resolved(ns2, cache, ns2[cache[c]].children)
    {
      var i :| 0 <= i < |needs| && needs[i] == c;
      assert Contributed(ns1, n0, cache, reflection, needs[i], refs[i]);
      RelinkKeepsCompiled(ns1, ns2, refs[i], c, InfoOf(reflection, c));
    }
  }

  /** Nodes cached before the batch keep their resolved children. */
  lemma OldStaysResolved(ns0: seq<Node>, ns1: seq<Node>, ns2: seq<Node>, cache0: map<JavaType, NodeRef>,
                         cache: map<JavaType, NodeRef>, refs: seq<NodeRef>)
    requires ns0 <= ns1 && CacheExtends(cache0, cache) && Touched(ns1, ns2, refs)
    requires forall i :: 0 <= i < |refs| ==> |ns0| <= refs[i]
    requires forall c :: c in cache0 ==> cache0[c] < |ns0|
    ensures ns0 <= ns2
    ensures (forall c :: c in cache0 ==> Resolved(ns0, cache0, ns0[cache0[c]].children)) ==>
      forall c :: c in cache0 ==> Resolved(ns2, cache, ns2[cache0[c]].children)
  {
    if forall c :: c in cache0 ==> Resolved(ns0, cache0, ns0[cache0[c]].children) {
      forall c | c in cache0
        ensures Resolved(ns2, cache, ns2[cache0[c]].children)
      {
        var n := cache0[c];
        assert n !in refs;
        assert ns2[n] == ns1[n] == ns0[n];
        forall j | 0 <= j < |ns0[n].children|
          ensures LinkedToCache(ns2, cache, ns0[n].children[j].child)
        {
          assert LinkedToCache(ns0, cache0, ns0[n].children[j].child);
        }
      }
    }
    forall n | 0 <= n < |ns0|
      ensures ns2[n] == ns0[n]
    {
      assert n !in refs;
    }
  }

  // ---------------------------------------------------------------------------------------
  // The compiler and its caches

  class JAUtilities {
    /** The reflective facts about every contract; fixed for the lifetime of the process. */
    const reflection: Reflection
    var nodes: seq<Node>
    var interface2NodeCache: map<JavaType, NodeRef>
    var proxy2NodeCache: map<JavaType, NodeRef>
    /** The contracts whose proxy class the class pool has generated (memoised by name). */
    var classPool: set<JavaType>

    /** References are in range, and each cache entry is a real node of the right contract. */
    ghost predicate Structural()
      reads this
    {
      RefsInRange(nodes) && InterfaceCacheOk(nodes, interface2NodeCache, classPool) &&
      ProxyCacheOk(nodes, proxy2NodeCache, classPool)
    }

    /** ... and the two caches agree: a contract and its proxy class name the same node. */
    ghost predicate Valid()
      reads this
    {
      CachesOk(nodes, interface2NodeCache, proxy2NodeCache, classPool)
    }

    /** Every cached node has only real children, each the cached node of its contract. */
    ghost predicate AllResolved()
      reads this
      requires Valid()
    {
      forall c :: c in interface2NodeCache ==>
        Resolved(nodes, interface2NodeCache, nodes[interface2NodeCache[c]].children)
    }

    constructor (reflection: Reflection)
      ensures Valid() && AllResolved()
      ensures this.reflection == reflection && nodes == [] && classPool == {}
      ensures interface2NodeCache == map[] && proxy2NodeCache == map[]
    {
      this.reflection := reflection;
      nodes := [];
      interface2NodeCache := map[];
      proxy2NodeCache := map[];
      classPool := {};
    }

    /** The node registered for a proxy class, or else for a contract. */
    function GetNode(t: JavaType): (r: Option<NodeRef>)
      reads this
      requires Valid()
      ensures r.Some? <==> t in proxy2NodeCache || t in interface2NodeCache
      ensures t in proxy2NodeCache ==> r == Some(proxy2NodeCache[t]) && nodes[r.value].translatedClass == Some(t)
      ensures t !in proxy2NodeCache && t in interface2NodeCache ==>
        r == Some(interface2NodeCache[t]) && nodes[r.value].originalInterface == t
      ensures r.Some? ==> r.value < |nodes| && !nodes[r.value].isPlaceholder
    {
      if t in proxy2NodeCache then Some(proxy2NodeCache[t])
      else if t in interface2NodeCache then Some(interface2NodeCache[t])
      else None
    }

    /** A compiled declared contract and its generated proxy class name the same node. */
    lemma GetNodeAgrees(c: JavaType)
      requires Valid() && c.Declared? && c in interface2NodeCache
      ensures GetNode(c) == GetNode(Generated(c)) == Some(interface2NodeCache[c])
    {
    }

    /**
     * Converts one contract that is not cached yet: generates its proxy class if the class
     * pool does not have it, then classifies each method in order, and registers the node
     * under its proxy class. A second key method aborts with both method names; the
     * placeholders allocated before that are unreachable and are not kept.
     */
    method Convert(convertMe: JavaType) returns (r: Result<NodeRef, CompileError>)
      requires Valid() && convertMe !in interface2NodeCache
      modifies this
      ensures interface2NodeCache == old(interface2NodeCache)
      ensures classPool == old(classPool) + {convertMe}
      ensures r.Err? <==> HasTwoKeys(InfoOf(reflection, convertMe).methods)
      ensures r.Err? ==>
        r.error == MultipleKeysError(convertMe, InfoOf(reflection, convertMe).methods) &&
        nodes == old(nodes) && proxy2NodeCache == old(proxy2NodeCache) && Valid()
      ensures r.Ok? ==>
        old(nodes) <= nodes && r.value == |nodes| - 1 && |old(nodes)| <= r.value && Structural() &&
        (forall n :: |old(nodes)| <= n < r.value ==> nodes[n].isPlaceholder && nodes[n].children == []) &&
        proxy2NodeCache == old(proxy2NodeCache)[Generated(convertMe) := r.value] &&
        CompiledFrom(nodes, r.value, convertMe, InfoOf(reflection, convertMe)) &&
        FreshOrCached(nodes, |old(nodes)|, interface2NodeCache, nodes[r.value].children)
    {
      var info := InfoOf(reflection, convertMe);
      var ms := info.methods;
      // the class pool generates the proxy class only once per name
      classPool := classPool + {convertMe};
      var proxy := Generated(convertMe);
      var classified := ClassifyMethods(convertMe, ms, nodes, interface2NodeCache);
      if classified.Err? {
        r := Err(classified.error);
        return;
      }
      var c := classified.value;
      var retVal := Node(convertMe, false, info.rootName, c.keyProperty, c.nonChildProperties, c.children, Some(proxy));
      var arena := c.arena + [retVal];
      RegisterConverted(convertMe, info, nodes, interface2NodeCache, proxy2NodeCache, old(classPool), classPool, c, arena);
      nodes := arena;
      proxy2NodeCache := proxy2NodeCache[proxy := |arena| - 1];
      r := Ok(|arena| - 1);
      assert nodes == arena && r.value == |arena| - 1;
    }

    /**
     * The conversion loop of `convertRootAndLeaves`: converts each contract of the batch in
     * order and registers it in the interface cache, stopping at the first error.
     */
    method ConvertEach(needs: seq<JavaType>) returns (r: Result<seq<NodeRef>, CompileError>)
      requires Valid() && NoDup(needs) && forall c :: c in needs ==> c !in interface2NodeCache
      modifies this
      ensures Valid() && old(nodes) <= nodes && CacheExtends(old(interface2NodeCache), interface2NodeCache)
      ensures forall c :: c in interface2NodeCache && c !in old(interface2NodeCache) ==> c in needs
      ensures needs == [] ==>
        nodes == old(nodes) && interface2NodeCache == old(interface2NodeCache) &&
        proxy2NodeCache == old(proxy2NodeCache) && classPool == old(classPool)
      ensures r.Ok? ==> ContributedUpTo(nodes, |old(nodes)|, interface2NodeCache, reflection, needs, |needs|, r.value)
      ensures r.Ok? ==> Ascending(r.value)
      ensures r.Ok? ==> forall c :: c in needs ==> !HasTwoKeys(InfoOf(reflection, c).methods)
      ensures old(classPool) <= classPool
      ensures r.Err? ==> r.error.MultipleKeys?
      ensures r.Err? && r.error.MultipleKeys? ==>
        exists k: nat :: StoppedAt(needs, k, interface2NodeCache, reflection) && needs[k] == r.error.contract
      ensures r.Err? ==>
        r.error.MultipleKeys? && r.error.contract in needs &&
        r.error.contract !in interface2NodeCache && Generated(r.error.contract) !in proxy2NodeCache &&
        HasTwoKeys(InfoOf(reflection, r.error.contract).methods) &&
        r.error == MultipleKeysError(r.error.contract, InfoOf(reflection, r.error.contract).methods)
    {
      ghost var nodes0, cache0, pcache0, pool0 := nodes, interface2NodeCache, proxy2NodeCache, classPool;
      var refs: seq<NodeRef> := [];
      var k := 0;
      while k < |needs|
        invariant CachesOk(nodes, interface2NodeCache, proxy2NodeCache, classPool) && nodes0 <= nodes
        invariant BatchState(nodes, interface2NodeCache, |nodes0|, cache0, reflection, needs, k, refs)
        invariant k == 0 ==>
          nodes == nodes0 && interface2NodeCache == cache0 && proxy2NodeCache == pcache0 && classPool == pool0
        invariant forall i :: 0 <= i < k ==> !HasTwoKeys(InfoOf(reflection, needs[i]).methods)
        invariant Ascending(refs) && AllBelow(refs, |nodes|)
        invariant pool0 <= classPool
      {
        var convertMe := needs[k];
        ghost var before, pcache := nodes, proxy2NodeCache;
        var converted := Convert(convertMe);
        if converted.Err? {
          assert StoppedAt(needs, k, interface2NodeCache, reflection);
          r := Err(converted.error);
          return;
        }
        RegisterKeepsCaches(nodes, interface2NodeCache, pcache, proxy2NodeCache, classPool, convertMe, converted.value);
        BatchStep(before, nodes, interface2NodeCache, classPool, |nodes0|, cache0, reflection, needs, k, refs,
                  converted.value);
        AppendAscending(refs, |before|, |nodes|, converted.value);
        interface2NodeCache := interface2NodeCache[convertMe := converted.value];
        refs := refs + [converted.value];
        k := k + 1;
      }
      r := Ok(refs);
    }

    /** The contracts discovered from `root`, in discovery order. */
    ghost function Discovered(root: JavaType): seq<JavaType> {
      Visit(GetterMapOf(reflection), root, [], {})
    }

    /** The resolution phase: relinks the placeholder children of the batch's nodes in place. */
    method ResolveContributions(contribs: seq<NodeRef>) returns (failure: Option<CompileError>)
      requires Valid() && Distinct(contribs)
      requires forall i :: 0 <= i < |contribs| ==>
        contribs[i] < |nodes| && !nodes[contribs[i]].isPlaceholder &&
        WellLinked(nodes, interface2NodeCache, nodes[contribs[i]].children)
      modifies this
      ensures interface2NodeCache == old(interface2NodeCache) && proxy2NodeCache == old(proxy2NodeCache)
      ensures classPool == old(classPool) && Valid() && Touched(old(nodes), nodes, contribs)
      ensures contribs == [] ==> nodes == old(nodes) && failure == None
      ensures failure.None? ==> ResolvedUpTo(nodes, interface2NodeCache, contribs, |contribs|)
      ensures failure.Some? ==>
        failure.value.UnknownChild? && failure.value.childType !in interface2NodeCache &&
        exists i :: 0 <= i < |contribs| && failure.value.parent == old(nodes)[contribs[i]].originalInterface &&
          HasPlaceholderChild(old(nodes), contribs[i], failure.value.childType)
    {
      var arena;
      arena, failure := RelinkAll(nodes, interface2NodeCache, contribs);
      TouchedKeepsCaches(nodes, arena, contribs, interface2NodeCache, proxy2NodeCache, classPool);
      nodes := arena;
    }

    /**
     * Converts a batch of contracts that are not cached yet, in order, caching each, then
     * resolves the placeholder children of the new nodes.
     */
    method CompileBatch(needs: seq<JavaType>) returns (failure: Option<CompileError>)
      requires Valid() && NoDup(needs) && forall c :: c in needs ==> c !in interface2NodeCache
      modifies this
      ensures Valid() && old(nodes) <= nodes && CacheExtends(old(interface2NodeCache), interface2NodeCache)
      ensures forall c :: c in interface2NodeCache && c !in old(interface2NodeCache) ==> c in needs
      ensures needs == [] ==>
        failure == None && nodes == old(nodes) && interface2NodeCache == old(interface2NodeCache) &&
        proxy2NodeCache == old(proxy2NodeCache) && classPool == old(classPool)
      ensures failure.None? || failure.value.UnknownChild? ==> forall c :: c in needs ==> c in interface2NodeCache
      ensures failure.None? || failure.value.UnknownChild? ==>
        forall c :: c in needs ==> !HasTwoKeys(InfoOf(reflection, c).methods)
      ensures old(classPool) <= classPool
      ensures failure.None? ==>
        forall c :: c in interface2NodeCache && c !in old(interface2NodeCache) ==>
          CompiledFrom(nodes, interface2NodeCache[c], c, InfoOf(reflection, c)) &&
          Resolved(nodes, interface2NodeCache, nodes[interface2NodeCache[c]].children)
      ensures failure.None? && old(AllResolved()) ==> AllResolved()
      ensures failure.Some? && failure.value.MultipleKeys? ==>
        failure.value.contract in needs && failure.value.contract !in interface2NodeCache &&
        Generated(failure.value.contract) !in proxy2NodeCache &&
        HasTwoKeys(InfoOf(reflection, failure.value.contract).methods) &&
        failure.value == MultipleKeysError(failure.value.contract, InfoOf(reflection, failure.value.contract).methods)
      ensures failure.None? ==> ConvertedInOrder(needs, interface2NodeCache)
      ensures failure.Some? && failure.value.MultipleKeys? ==>
        exists k: nat :: StoppedAt(needs, k, interface2NodeCache, reflection) && needs[k] == failure.value.contract
      ensures failure.Some? && failure.value.UnknownChild? ==>
        failure.value.childType !in interface2NodeCache && failure.value.parent in needs &&
        DeclaresChild(reflection, failure.value.parent, failure.value.childType)
    {
      ghost var nodes0, cache0 := nodes, interface2NodeCache;
      var converted := ConvertEach(needs);
      if converted.Err? {
        return Some(converted.error);
      }
      var contributions := converted.value;
      ghost var nodes1 := nodes;
      ContributionsReady(nodes, |nodes0|, interface2NodeCache, reflection, needs, contributions);
      failure := ResolveContributions(contributions);
      if failure.Some? {
        PlaceholderChildDeclared(nodes1, |nodes0|, interface2NodeCache, reflection, needs, contributions,
                                 failure.value.parent, failure.value.childType);
      }
      OldStaysResolved(nodes0, nodes1, nodes, cache0, interface2NodeCache, contributions);
      if failure.None? {
        BatchResolved(nodes1, nodes, |nodes0|, cache0, interface2NodeCache, reflection, needs, contributions);
      }
    }

    /**
     * Compiles `root` and every contract reachable from it that is not cached yet: discovers
     * them, converts each in discovery order and caches it, then resolves the placeholder
     * children of the new nodes, and returns the cached node of `root`.
     */
    method ConvertRootAndLeaves(root: JavaType) returns (r: Result<NodeRef, CompileError>)
      requires Valid()
      modifies this
      ensures Valid() && old(nodes) <= nodes && CacheExtends(old(interface2NodeCache), interface2NodeCache)
      ensures forall c :: c in interface2NodeCache && c !in old(interface2NodeCache) ==> c in Discovered(root)
      ensures r.Ok? ==>
        (forall c :: c in Discovered(root) ==> c in interface2NodeCache) &&
        root in interface2NodeCache && r.value == interface2NodeCache[root]
      ensures r.Ok? ==>
        forall c :: c in interface2NodeCache && c !in old(interface2NodeCache) ==>
          CompiledFrom(nodes, interface2NodeCache[c], c, InfoOf(reflection, c)) &&
          Resolved(nodes, interface2NodeCache, nodes[interface2NodeCache[c]].children)
      ensures r.Ok? && old(AllResolved()) ==> AllResolved()
      ensures (forall c :: c in Discovered(root) ==> c in old(interface2NodeCache)) ==>
        r == Ok(old(interface2NodeCache)[root]) && nodes == old(nodes) &&
        interface2NodeCache == old(interface2NodeCache) && proxy2NodeCache == old(proxy2NodeCache) &&
        classPool == old(classPool)
      ensures r.Err? && r.error.MultipleKeys? ==>
        r.error.contract in Discovered(root) && r.error.contract !in interface2NodeCache &&
        Generated(r.error.contract) !in proxy2NodeCache &&
        HasTwoKeys(InfoOf(reflection, r.error.contract).methods) &&
        r.error == MultipleKeysError(r.error.contract, InfoOf(reflection, r.error.contract).methods)
      ensures r.Err? && r.error.MultipleKeys? ==>
        exists k: nat :: StoppedAt(RemoveAll(Discovered(root), old(interface2NodeCache).Keys), k, interface2NodeCache, reflection) &&
          RemoveAll(Discovered(root), old(interface2NodeCache).Keys)[k] == r.error.contract
      ensures r.Ok? ==> ConvertedInOrder(RemoveAll(Discovered(root), old(interface2NodeCache).Keys), interface2NodeCache)
      ensures r.Err? && r.error.UnknownChild? ==>
        (forall c :: c in Discovered(root) ==> c in interface2NodeCache) &&
        r.error.childType !in interface2NodeCache &&
        r.error.parent in interface2NodeCache && r.error.parent !in old(interface2NodeCache) &&
        DeclaresChild(reflection, r.error.parent, r.error.childType)
      ensures ChildrenClosed(reflection, Discovered(root), old(interface2NodeCache).Keys) ==> r.Ok? || r.error.MultipleKeys?
      ensures (exists c :: c in Discovered(root) && c !in old(interface2NodeCache) && HasTwoKeys(InfoOf(reflection, c).methods)) ==>
        r.Err? && r.error.MultipleKeys?
      ensures old(classPool) <= classPool
    {
      var discovery := new Discovery(GetterMapOf(reflection));
      discovery.GetAllToConvert(root);
      var needsToBeConverted := RemoveAll(discovery.needsToBeConverted, interface2NodeCache.Keys);
      DiscoveredOnce(GetterMapOf(reflection), root);
      var failure := CompileBatch(needsToBeConverted);
      if failure.Some? {
        return Err(failure.value);
      }
      r := Ok(interface2NodeCache[root]);
    }

    /** Compiling the same root again after a success returns the identical cached node. */
    method ConvertTwice(root: JavaType) returns (first: Result<NodeRef, CompileError>, second: Result<NodeRef, CompileError>)
      requires Valid()
      modifies this
      ensures first.Ok? ==> second == first
    {
      first := ConvertRootAndLeaves(root);
      second := ConvertRootAndLeaves(root);
    }
  }
}
