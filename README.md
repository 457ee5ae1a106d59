# hk2 schema compiler and inhabitant-generator command line, in Dafny

This project models two pieces of hk2.

**The XML schema compiler (`JAUtilities`).** The XML data-binding layer turns a Java
*contract* (an annotated interface) into a schema node, an `UnparentedNode`. The node holds the
contract's root element name and its key property. It also holds its non-child properties,
with their default values, and its child relations, each a `ParentedNode` with a name,
list/array flags and a child node. The compiler does this work:

- *discovery* (`getAllToConvert`): a depth-first walk from a root contract over the return
  types of its getters. It guards cycles with a recursion-stack set, and it collects each type
  only after its children.
- *per-contract conversion* (`convert`): it generates the proxy class once per class-pool
  name and checks that at most one method is the key. It turns every getter and setter into a
  child relation or a non-child property. A child refers to the cached node of its contract,
  or to a fresh placeholder when that contract is not cached yet. Finally it registers the node
  under its proxy class.
- *batch compilation* (`convertRootAndLeaves`):
  - It drops the contracts already cached.
  - It converts the rest in discovery order and caches each.
  - It redirects every placeholder child of the new nodes to the cached node of its contract,
    and fails when there is none.
  - It returns the cached root.
- the two caches `interface2NodeCache` and `proxy2NodeCache`, and the lookup `getNode`.

Nodes live in an arena `nodes: seq<Node>`. A node reference is an index into it, so `setChild`
is an update of one arena slot, and every holder of the node sees it. A Java class is a
`JavaType`. The proxy class generated for a class `C` is `Generated(C)`, because its name is
`C`'s name plus the fixed suffix `_$$_Hk2_Jaxb`. Reflection is input data:

- for discovery, the *shapes* of each type's methods, in `getMethods()` order: a non-getter;
  an interface return, with a flag for names in `java.`; an array return, with a flag for an
  interface component; a `List` return, erased or with an element class; any other return;
- for conversion, the *method information* the classifier reports (method type, key flag,
  represented property, default value, base child type, list/array flags), plus the root
  element name.

**The command line of the inhabitant generator (`HabitatGenerator.embeddedMain`, `go`).**

- The argument loop takes `--file`, `--locator`, `--outjar` and `--searchPath`, each with a
  value, and `--verbose` without one.
- A value flag given as the last argument ends the program with 3, 4 or 5. Unknown arguments
  are skipped.
- When `--file` is absent, the file defaults to the first class-path entry, and the output jar
  defaults to the file.
- The generator's run maps to exit code 0, 1 or 2.

The class path, the path separator and the generator run are parameters.

Files:

- `outcomes.dfy`: `Option` and `Result`.
- `discovery.dfy`: module `SchemaDiscovery`. It holds the walk as a function `Visit`, its
  specification lemmas, and the class `Discovery`, whose recursive method `GetAllToConvert`
  mutates the two collections.
- `compiler.dfy`: module `SchemaCompiler`. It holds the method classification, the node
  invariants, the resolution loops, and the class `JAUtilities` with its caches and
  operations.
- `habitat.dfy`: module `HabitatArguments`. It holds the argument loop as a function `ScanFrom`
  with lemmas about it, the imperative `EmbeddedMain` proved against it, the defaults, and `Go`.

## Model

| member | source | states |
|---|---|---|
| SchemaDiscovery.Target | hk2-configuration/persistence/hk2-xml/main/src/main/java/org/glassfish/hk2/xml/internal/JAUtilities.java:270-304 | Discovery recurses into an interface return exactly when its name is not in `java.`. It recurses into an array return exactly when the component is an interface. It recurses into a `List` return exactly when the element has a class (never raw `List` or `List<Object>`). It never recurses for non-getters or other returns. The `java.` filter applies only to interfaces, and a `List` element is followed whether or not it is an interface. |
| SchemaDiscovery.MeasureShrinks | hk2-configuration/persistence/hk2-xml/main/src/main/java/org/glassfish/hk2/xml/internal/JAUtilities.java:264-265 | Pushing a type that is not on the stack strictly shrinks the set of not-yet-stacked types of the finite universe, so the recursion terminates. |
| SchemaDiscovery.Visit | hk2-configuration/persistence/hk2-xml/main/src/main/java/org/glassfish/hk2/xml/internal/JAUtilities.java:262-311 | Defines the walk `getAllToConvert(t)` performs on the collected list and the recursion stack. It returns at once when `t` is collected or on the stack. Otherwise it visits the targets of `t`'s methods in order with `t` pushed, then appends `t`. No contract of its own: `VisitSpec` and `DiscoveryOrder` state its properties. |
| SchemaDiscovery.VisitFrom | hk2-configuration/persistence/hk2-xml/main/src/main/java/org/glassfish/hk2/xml/internal/JAUtilities.java:269-305 | Defines the loop over the methods of one type, from the k-th on. Each method with a target is visited with the collection left by the previous one. Its properties are stated by `VisitSpec` through the helper lemmas. |
| SchemaDiscovery.VisitSpec | hk2-configuration/persistence/hk2-xml/main/src/main/java/org/glassfish/hk2/xml/internal/JAUtilities.java:262-311 | A type already collected or on the stack leaves the collection unchanged. The collection only grows and never gains a duplicate. The visited type ends up collected exactly when it was collected already or was not on the stack. Every newly collected type is off the stack and reachable from the visited type. Each newly collected type has each child before it, or on the stack, or after it on a cycle back to it. |
| SchemaDiscovery.DiscoveryOrder | hk2-configuration/persistence/hk2-xml/main/src/main/java/org/glassfish/hk2/xml/internal/JAUtilities.java:269-307 | A walk from the root with empty collections ends with the root last, holds no type twice, and holds only types reachable from the root. Every child of a collected type is collected, and it comes earlier unless the two lie on a common cycle. |
| SchemaDiscovery.Discovery.constructor | hk2-configuration/persistence/hk2-xml/main/src/main/java/org/glassfish/hk2/xml/internal/JAUtilities.java:120-122 | Discovery starts with an empty collected set and an empty cycle detector. |
| SchemaDiscovery.Discovery.GetAllToConvert | hk2-configuration/persistence/hk2-xml/main/src/main/java/org/glassfish/hk2/xml/internal/JAUtilities.java:259-312 | The in-place recursive walk leaves `cycleDetector` exactly as it found it, on the early returns and after the loop alike. It leaves `needsToBeConverted` equal to the walk `Visit`, whose properties `VisitSpec` and `DiscoveryOrder` state. |
| SchemaCompiler.FirstKey | hk2-configuration/persistence/hk2-xml/main/src/main/java/org/glassfish/hk2/xml/internal/JAUtilities.java:204-212 | The key method `convert` records is at or after the start position and is marked as the key. |
| SchemaCompiler.FirstKeyIs | hk2-configuration/persistence/hk2-xml/main/src/main/java/org/glassfish/hk2/xml/internal/JAUtilities.java:204-212 | The recorded key is method `j` if and only if `j` is a key and no earlier method is. |
| SchemaCompiler.FirstKeyNone | hk2-configuration/persistence/hk2-xml/main/src/main/java/org/glassfish/hk2/xml/internal/JAUtilities.java:204-212 | No key is recorded if and only if no method is marked as the key. |
| SchemaCompiler.ClassificationSpec | hk2-configuration/persistence/hk2-xml/main/src/main/java/org/glassfish/hk2/xml/internal/JAUtilities.java:214-250 | Child relations come from exactly the getters and setters with a base child type. Non-child properties come from exactly the getters and setters without one, each carrying that method's property and default value. |
| SchemaCompiler.EachAccessorAddsOneEntry | hk2-configuration/persistence/hk2-xml/main/src/main/java/org/glassfish/hk2/xml/internal/JAUtilities.java:214-250 | Each getter or setter adds exactly one entry, a child or a non-child property. Every other method adds none. |
| SchemaCompiler.Contribute | hk2-configuration/persistence/hk2-xml/main/src/main/java/org/glassfish/hk2/xml/internal/JAUtilities.java:214-250 | Defines what one method adds to the node under construction. A getter or setter with a child type adds a child relation, to the cached node or to a new placeholder. One without a child type adds a non-child property. Any other method adds nothing. No contract of its own: `ContributeKeeps`, `ClassificationSpec`, `EachAccessorAddsOneEntry` and `ClassifyMethods` state its effect. |
| SchemaCompiler.ContributeKeeps | hk2-configuration/persistence/hk2-xml/main/src/main/java/org/glassfish/hk2/xml/internal/JAUtilities.java:214-250 | One more method keeps the node under construction classified as the methods so far dictate. New arena slots are childless placeholders, and the key property is untouched. |
| SchemaCompiler.ClassifyMethods | hk2-configuration/persistence/hk2-xml/main/src/main/java/org/glassfish/hk2/xml/internal/JAUtilities.java:193-251 | The method loop fails if and only if two methods are keys, with the error naming the second key method and then the first. Otherwise the key property is that of the first key. The children and properties follow the classification in method order: each child keeps its list/array flags and points to the cached node of its contract, or to a fresh placeholder of that contract. |
| SchemaCompiler.RemoveAll | hk2-configuration/persistence/hk2-xml/main/src/main/java/org/glassfish/hk2/xml/internal/JAUtilities.java:128 | Dropping the cached contracts keeps exactly the uncached ones, in their discovery order (a subsequence), and keeps them duplicate-free. When every contract is cached, nothing is left. |
| SchemaCompiler.DiscoveredOnce | hk2-configuration/persistence/hk2-xml/main/src/main/java/org/glassfish/hk2/xml/internal/JAUtilities.java:120-122 | The walk from a root collects the root, and collects no contract twice. |
| SchemaCompiler.RegisterConverted | hk2-configuration/persistence/hk2-xml/main/src/main/java/org/glassfish/hk2/xml/internal/JAUtilities.java:253-254 | Appending the converted node and registering it under its proxy class keeps the arena and both caches well formed. The node is compiled from its contract, and each of its children is cached or a fresh placeholder. |
| SchemaCompiler.RelinkChildren | hk2-configuration/persistence/hk2-xml/main/src/main/java/org/glassfish/hk2/xml/internal/JAUtilities.java:148-157 | Only child references change, each to a node of the same contract. On success every child is the cached node of its contract. Otherwise the reported contract is not cached, and it is the contract of a placeholder child. |
| SchemaCompiler.RelinkAll | hk2-configuration/persistence/hk2-xml/main/src/main/java/org/glassfish/hk2/xml/internal/JAUtilities.java:147-159 | Only the children of the batch's nodes change, each to a node of the same contract. An empty batch changes nothing. On success every child of every batch node is the cached node of its contract. Otherwise the error names a contract that is not cached and a batch node with a placeholder child of exactly that contract. |
| SchemaCompiler.ContributionsReady | hk2-configuration/persistence/hk2-xml/main/src/main/java/org/glassfish/hk2/xml/internal/JAUtilities.java:131-145 | After the conversion loop, the batch's nodes are distinct new real nodes, one per converted contract and each cached. Their children point to cached nodes or to placeholders. When the nodes were allocated in batch order, the cache maps the batch's contracts to ascending nodes. |
| SchemaCompiler.CompiledChildDeclared | hk2-configuration/persistence/hk2-xml/main/src/main/java/org/glassfish/hk2/xml/internal/JAUtilities.java:214-238 | A placeholder child of a compiled node stands for the base child type of a getter or setter that its contract declares. |
| SchemaCompiler.PlaceholderChildDeclared | hk2-configuration/persistence/hk2-xml/main/src/main/java/org/glassfish/hk2/xml/internal/JAUtilities.java:149-153 | The unknown child that resolution reports for a node of the batch is a child contract declared by that node's contract. |
| SchemaCompiler.BatchResolved | hk2-configuration/persistence/hk2-xml/main/src/main/java/org/glassfish/hk2/xml/internal/JAUtilities.java:131-159 | After a successful resolution every newly cached contract's node is still compiled from its contract, and none of its children is a placeholder. |
| SchemaCompiler.OldStaysResolved | hk2-configuration/persistence/hk2-xml/main/src/main/java/org/glassfish/hk2/xml/internal/JAUtilities.java:128-159 | A batch never touches nodes that existed before it, so nodes cached before it keep their resolved children. |
| SchemaCompiler.JAUtilities.constructor | hk2-configuration/persistence/hk2-xml/main/src/main/java/org/glassfish/hk2/xml/internal/JAUtilities.java:90-91 | A new compiler starts with both caches empty, which satisfies the cache invariants. |
| SchemaCompiler.JAUtilities.GetNode | hk2-configuration/persistence/hk2-xml/main/src/main/java/org/glassfish/hk2/xml/internal/JAUtilities.java:112-116 | The lookup finds a node exactly when the class is in either cache, and the proxy cache wins. A proxy class finds the node it was registered for, whose translated class is that proxy. A contract finds its own real node. |
| SchemaCompiler.JAUtilities.GetNodeAgrees | hk2-configuration/persistence/hk2-xml/main/src/main/java/org/glassfish/hk2/xml/internal/JAUtilities.java:112-116 | Looking up a compiled contract and looking up its proxy class give the same node. |
| SchemaCompiler.JAUtilities.Convert | hk2-configuration/persistence/hk2-xml/main/src/main/java/org/glassfish/hk2/xml/internal/JAUtilities.java:165-257 | Conversion fails if and only if the contract has two key methods. Then the error names both methods, and neither cache nor the arena changes. On success the new node is compiled from its contract, with fresh placeholders for uncached children, and is registered under its proxy class only. The interface cache is untouched, and the class pool holds the contract's proxy. |
| SchemaCompiler.JAUtilities.ConvertEach | hk2-configuration/persistence/hk2-xml/main/src/main/java/org/glassfish/hk2/xml/internal/JAUtilities.java:131-145 | The conversion loop keeps the cache invariants and only adds cache entries, all for contracts of the batch. On success each contract of the batch is cached to its compiled node, no contract of the batch has two keys, and the nodes are allocated in batch order. The class pool only grows. On failure the loop stopped at the first contract with two keys, which the error names. Every contract before it is cached and has at most one key. None from it on is cached, and the offender is in neither cache. |
| SchemaCompiler.JAUtilities.ResolveContributions | hk2-configuration/persistence/hk2-xml/main/src/main/java/org/glassfish/hk2/xml/internal/JAUtilities.java:147-159 | The resolution phase leaves both caches unchanged and keeps their invariants. It changes only the batch's children, each to a node of the same contract. It succeeds with every batch child resolved. Otherwise it reports an uncached contract, together with a batch node that has a placeholder child of that contract. |
| SchemaCompiler.JAUtilities.CompileBatch | hk2-configuration/persistence/hk2-xml/main/src/main/java/org/glassfish/hk2/xml/internal/JAUtilities.java:128-159 | Converting then resolving a batch keeps the invariants, never overwrites a cache entry, and only grows the class pool. A batch contract with two keys makes the batch fail with a double key: success or an unknown child means that no batch contract has two keys. On success every new entry is compiled from its contract with only resolved children, the batch is converted in order, and earlier entries stay resolved. A double key stops the batch at the first offender: the contracts before it are cached, the rest are not. An unknown child is a child contract that is not cached and that a batch contract declares, with the whole batch already cached. |
| SchemaCompiler.JAUtilities.ConvertRootAndLeaves | hk2-configuration/persistence/hk2-xml/main/src/main/java/org/glassfish/hk2/xml/internal/JAUtilities.java:118-163 | Existing cache entries are never overwritten, and new ones are only for contracts discovered from the root. The uncached discovered contracts are converted in discovery order. On success all discovered contracts are cached, the result is the root's cached node, and every new node is compiled and has no placeholder child. If everything discovered was cached already, nothing changes and the cached root is returned. A double key stops at the first offender in discovery order: those before it are cached, those after it are not, and it is in neither cache. An unknown child is a child contract, declared by a newly cached parent, that is not cached. When every child contract declared within the discovered contracts is itself discovered or already cached, the call cannot fail with an unknown child. An uncached discovered contract with two keys always makes the call fail with a double key. The class pool only grows. |
| SchemaCompiler.JAUtilities.ConvertTwice | hk2-configuration/persistence/hk2-xml/main/src/main/java/org/glassfish/hk2/xml/internal/JAUtilities.java:128-162 | Compiling the same root a second time after a success returns the identical cached node. |
| HabitatArguments.MissingValueCode | hk2/hk2-inhabitant-generator/src/main/java/org/jvnet/hk2/generator/HabitatGenerator.java:173-207 | A value flag with no value gives 3 for `--file`, 4 for `--locator`, and 5 for `--outjar` or `--searchPath`. |
| HabitatArguments.Store | hk2/hk2-inhabitant-generator/src/main/java/org/jvnet/hk2/generator/HabitatGenerator.java:180 | A value flag overwrites exactly its own setting with the value, and leaves every other setting as it was. The assignments are at lines 180, 189, 198 and 207. |
| HabitatArguments.ScanFrom | hk2/hk2-inhabitant-generator/src/main/java/org/jvnet/hk2/generator/HabitatGenerator.java:169-212 | The argument loop from position `lcv` on. It fails only when the last argument is a value flag, and then with that flag's missing-value code, so the codes are 3, 4 or 5. |
| HabitatArguments.ScanOutcomeIndependent | hk2/hk2-inhabitant-generator/src/main/java/org/jvnet/hk2/generator/HabitatGenerator.java:169-212 | Whether the loop fails depends on the arguments only, not on the settings it starts from. |
| HabitatArguments.ScanKeepsAgreement | hk2/hk2-inhabitant-generator/src/main/java/org/jvnet/hk2/generator/HabitatGenerator.java:169-212 | The loop never reads a setting. Starting settings that differ in one setting only end in the same error, or in results that differ in that setting only. |
| HabitatArguments.ScanShift | hk2/hk2-inhabitant-generator/src/main/java/org/jvnet/hk2/generator/HabitatGenerator.java:169-212 | Scanning from inside an appended suffix is scanning that suffix on its own. |
| HabitatArguments.ScanAppend | hk2/hk2-inhabitant-generator/src/main/java/org/jvnet/hk2/generator/HabitatGenerator.java:169-212 | The loop over a concatenation continues with the settings the first part left, so the loop composes over argument lists. |
| HabitatArguments.MissingValue | hk2/hk2-inhabitant-generator/src/main/java/org/jvnet/hk2/generator/HabitatGenerator.java:173-207 | A value flag as the last argument makes parsing fail with that flag's code. |
| HabitatArguments.UnknownArgumentSkipped | hk2/hk2-inhabitant-generator/src/main/java/org/jvnet/hk2/generator/HabitatGenerator.java:209-211 | An argument that is not a flag is skipped: removing it changes nothing. |
| HabitatArguments.FlagTakesNextArgument | hk2/hk2-inhabitant-generator/src/main/java/org/jvnet/hk2/generator/HabitatGenerator.java:173-208 | A value flag stores the argument after it, whatever that argument is. |
| HabitatArguments.LastValueWins | hk2/hk2-inhabitant-generator/src/main/java/org/jvnet/hk2/generator/HabitatGenerator.java:169-208 | When a value flag is repeated, with any arguments that scan on their own in between, the last value wins: dropping the first occurrence and its value changes nothing. |
| HabitatArguments.VerboseIdempotent | hk2/hk2-inhabitant-generator/src/main/java/org/jvnet/hk2/generator/HabitatGenerator.java:170-172 | `--verbose` takes no value. Giving it again later, with any arguments that scan on their own in between, is the same as giving it once. |
| HabitatArguments.UntouchedSettings | hk2/hk2-inhabitant-generator/src/main/java/org/jvnet/hk2/generator/HabitatGenerator.java:163-208 | A setting whose flag never appears keeps its initial value. |
| HabitatArguments.IndexOfFrom | hk2/hk2-inhabitant-generator/src/main/java/org/jvnet/hk2/generator/HabitatGenerator.java:217 | The separator search finds the first occurrence at or after the start, or reports that there is none. |
| HabitatArguments.FirstClasspathEntry | hk2/hk2-inhabitant-generator/src/main/java/org/jvnet/hk2/generator/HabitatGenerator.java:214-228 | The default file is a prefix of the class path: the part before the first separator, or the whole class path when there is no separator. |
| HabitatArguments.WithDefaults | hk2/hk2-inhabitant-generator/src/main/java/org/jvnet/hk2/generator/HabitatGenerator.java:214-230 | A given file is kept, and otherwise the first class-path entry is used. A given output jar is kept, and otherwise the output jar is the chosen file. Locator, verbosity and search path pass through. |
| HabitatArguments.Defaults | hk2/hk2-inhabitant-generator/src/main/java/org/jvnet/hk2/generator/HabitatGenerator.java:140 | With no `--locator` the locator is "default". With no `--searchPath` the search path is the class path. With no `--file` the file is the first class-path entry. With no `--outjar` the output jar is the file. These defaults are set at lines 164-167 and 214-230. |
| HabitatArguments.Parse | hk2/hk2-inhabitant-generator/src/main/java/org/jvnet/hk2/generator/HabitatGenerator.java:162-230 | Parsing fails exactly as the loop does: only when the last argument is a value flag, with its code 3, 4 or 5. Otherwise it yields the configuration with its defaults filled in. |
| HabitatArguments.Go | hk2/hk2-inhabitant-generator/src/main/java/org/jvnet/hk2/generator/HabitatGenerator.java:100-128 | The exit code is 0 exactly for a completed run, 1 exactly for an assertion failure, and 2 exactly for an I/O failure. |
| HabitatArguments.GeneratorRunner.Run | hk2/hk2-inhabitant-generator/src/main/java/org/jvnet/hk2/generator/HabitatGenerator.java:100-105 | Running the generator logs the configuration it was run with and ends with the outcome the run has for that configuration. |
| HabitatArguments.EmbeddedMain | hk2/hk2-inhabitant-generator/src/main/java/org/jvnet/hk2/generator/HabitatGenerator.java:162-236 | When parsing fails, the exit code is the missing-value code, and the generator's run log is unchanged: it never ran. Otherwise the generator runs exactly once, with exactly the parsed configuration, and the exit code is `Go` of its outcome. |

## Left out

- Bytecode generation and class loading in `convert` (`ClassPool`, `Generator.generate`, `toClass`, `loadClass`) are not modelled. The proxy class is the value `Generated(contract)`, and the class pool is the set of contracts whose proxy it holds.
- Java reflection (`getMethods`, `getGenericReturnType`, `ReflectionHelper`, the `XmlRootElement` lookup) is not modelled. Neither are the helpers `Generator.getMethodInformation`, `Generator.getXmlNameMap`, `Utilities.isGetter` and `Utilities.convertXmlRootElementName`. Their results are input data: the method shapes, the method information and the root element name. A type absent from that data has no methods.
- `synchronized`: each call on the compiler is modelled as atomic.
- Failures of proxy synthesis and class loading cannot happen in the model: `Generator.generate`, `toClass` or `loadClass` throwing, which lines 139-141 wrap into a `MultiException` and which abort the batch. The only conversion failure modelled is the double key.
- Debug logging and `helper.dispose()` are left out. The exception messages are not modelled: an error carries the contract and the method names (or the child contract and the parent).
- The `childTypes` map filled in `convert` is never read, so it is not modelled.
- SchemaCompiler.JAUtilities.Convert: on a double key it does not keep the placeholder nodes allocated before the error. Nothing can reach them in Java either.
- SchemaCompiler.JAUtilities.ResolveContributions: it redirects the children on a copy of the arena and writes the copy back once. With calls atomic, this is the same as updating in place, including the redirections done before an unknown child aborts the loop.
- The constructor's lookup of the base class in the class pool and its `NotFoundException` are not modelled.
- The generator's own work inside `GeneratorRunner.go` is not modelled: its run is a class `GeneratorRunner` whose outcome for a configuration is given. Of its exceptions, only `AssertionError` and `IOException` are modelled.
- `usage`, `printThrowable`, `main`, `System.exit` and the printed messages are I/O and are left out.
- `System.getProperty("java.class.path")` and `File.pathSeparator` are parameters. A class path that is absent (null in Java) is not modelled.
- The generator run is a class whose run log records every configuration it is run with, and whose outcome is a fixed function of the configuration. A run that behaves differently on a repeated configuration is not modelled.
- `CleanableThreadLocal`, `Factory2Test` and `ConfiguredCreator` are not part of this model. They are per-thread state and reflection, a container test, and a delegating wrapper.
