# CFR class-file core in Dafny

This project models four pieces of the CFR Java decompiler and proves properties of them:

- **`ClassFile`** is the decoded form of one `.class` file. The model covers:
  - the header pass: the `0xCAFEBABE` magic, the versions, and the chain of table offsets (section 4.1 of The Java Virtual Machine Specification);
  - the raw superclass and interfaces;
  - the signature synthesised when no `Signature` attribute exists;
  - the removal of method-level `ACC_STRICT` from a strict class;
  - the "assume Java 6" version heuristic;
  - the lazily built field and method maps;
  - the overload set and the prototype lookup;
  - the loading of inner classes and the rule that decides whether one is static;
  - the `begunAnalysis` guard of `analyseMid`;
  - the memoized walk that collects every bound supertype, with the route by which it was reached.
- **`LambdaExpressionFallback`** is an unreduced method-reference node. The model covers:
  - the name mapping and the `colon` flag;
  - the `dump` rendering, as a function returning the text;
  - the in-place rewriting of the curried arguments;
  - the two operations that always throw.
- **`AccessFlagMethod.build`** decodes a method's `access_flags` word into a set of flags (section 4.6 of the JVMS).
- **`SSAIdentifierFactory`** hands out SSA versions, keeping one counter per key.

The Dafny modules follow the source:

| module | file | models |
|---|---|---|
| `Wrappers` | `wrappers.dfy` | option, result and pass/fail values used for the source's nulls and exceptions |
| `AccessFlagMethods` | `access_flag_method.dfy` | the method access flags, their masks and display names |
| `SSAIdentifiers` | `ssa_identifier_factory.dfy` | the counter map and the factory class |
| `JavaTypes` | `java_types.dfy` | reference types `Ref(name)`, `Generic(name, args)`, `TVar(name)`; class signatures; type-variable bindings |
| `LambdaExpressions` | `lambda_expression_fallback.dfy` | the method-reference node as a class, with its rendering as a function |
| `ClassFileLayout` | `class_file_layout.dfy` | the byte-level header and offset chain, and an encoder for the round trip |
| `LinkedMaps` | `linked_map.dfy` | an insertion-ordered map, standing for `LinkedHashMap` |
| `ClassMembers` | `class_members.dfy` | methods and fields as values, and the lookup rules as functions over them |
| `BoundSupers` | `bound_supers.dfy` | the bound-supertype walk over a graph of class signatures |
| `ClassFiles` | `class_file.dfy` | the `ClassFile` class, with its lazily filled and memoized fields |

The state that `ClassFile` changes after construction is held in `var` fields of a Dafny class:
- the access flags;
- the two lazy maps;
- the inner-class map;
- `begunAnalysis`;
- the memoized supertypes.

Each method that changes this state states the new value of every field it may change, through a specification function whose properties are proved as lemmas. The exception is the analysis pass (`AnalyseMid`, `AnalyseInnerClasses`), whose ensures state only part of the new `begunAnalysis` values; see "## Left out".

The byte lengths of the constant pool, the field table and the method table are inputs. So are the results of the constant-pool, attribute and signature decoders (the `Decoders` record).

## Model

| member | source | states |
|---|---|---|
| `ClassFileLayout.U2RoundTrip` | src/org/benf/cfr/reader/entities/ClassFile.java:86-88 | a big-endian 2-byte value written at an offset reads back unchanged, whatever surrounds it |
| `ClassFileLayout.U4RoundTrip` | src/org/benf/cfr/reader/entities/ClassFile.java:83 | a big-endian 4-byte value written at an offset reads back unchanged |
| `ClassFileLayout.U2sRoundTrip` | src/org/benf/cfr/reader/entities/ClassFile.java:96-105 | a run of `n` 2-byte interface indices written contiguously reads back as the same sequence |
| `ClassFileLayout.ParseLayout` | src/org/benf/cfr/reader/entities/ClassFile.java:83-153 | success implies the magic is `0xCAFEBABE`. The offsets chain: access flags at 10 + constant-pool length; fields count at access flags + 8 + 2·interfaces; methods count at fields count + 2 + fields length; attributes count at methods count + 2 + methods length |
| `ClassFileLayout.BadMagicExactly` | src/org/benf/cfr/reader/entities/ClassFile.java:83-84 | the header fails with `BadMagic` exactly when four bytes are present and they are not `0xCAFEBABE` |
| `ClassFileLayout.SuperClassIndex` | src/org/benf/cfr/reader/entities/ClassFile.java:165-170 | there is no superclass exactly when the super index is 0; otherwise the index is kept |
| `ClassFileLayout.HeaderRead` | src/org/benf/cfr/reader/entities/ClassFile.java:83-88 | an encoded image reads back its magic, minor and major versions, and constant-pool count at offsets 0, 4, 6 and 8 |
| `ClassFileLayout.MiddleRead` | src/org/benf/cfr/reader/entities/ClassFile.java:90-153 | after the constant pool, the access flags, this, super, interface count, interfaces and the three table counts read back at their chained offsets |
| `ClassFileLayout.ParseEncoded` | src/org/benf/cfr/reader/entities/ClassFile.java:83-153 | decoding an encoded image succeeds and recovers every header field. Each table offset equals the one the chain predicts from the table lengths |
| `ClassFiles.RawSuperClass` | src/org/benf/cfr/reader/entities/ClassFile.java:165-170 | the raw superclass is absent exactly when the super index is 0; otherwise it is the class named by that constant-pool entry |
| `ClassFiles.RawInterfaces` | src/org/benf/cfr/reader/entities/ClassFile.java:96-111 | the raw interfaces are the classes named by the interface indices, in the same order and number |
| `ClassFiles.SignatureAttributeOf` | src/org/benf/cfr/reader/entities/ClassFile.java:563-567 | a signature is present exactly when the attribute map holds a `Signature` attribute |
| `ClassFiles.SignatureOf` | src/org/benf/cfr/reader/entities/ClassFile.java:563-581 | with a `Signature` attribute, that signature is used. Without one, the signature has no formal type parameters, the raw superclass, and the raw interfaces in order |
| `ClassFiles.InnerClassesOf` | src/org/benf/cfr/reader/entities/ClassFile.java:461-465 | the inner-class entries are present exactly when the map holds an `InnerClasses` attribute |
| `ClassMembers.StripStrict` | src/org/benf/cfr/reader/entities/ClassFile.java:145-149 | every method loses `ACC_STRICT`. Every other flag is unchanged, and so is every other part of every method, in the same order |
| `ClassFiles.RemoveStrict` | src/org/benf/cfr/reader/entities/ClassFile.java:145-149 | the loop over the methods yields exactly `StripStrict` of them |
| `ClassMembers.SomeMethodSigned` | src/org/benf/cfr/reader/entities/ClassFile.java:201-208 | true exactly when some method has a signature attribute |
| `ClassMembers.EffectiveVersion` | src/org/benf/cfr/reader/entities/ClassFile.java:197-215 | if the version is before Java 6 and the class or any method has a signature, the result is Java 6 with exactly one comment. Otherwise it is the declared version with no comment |
| `ClassFiles.ClassFile.constructor` | src/org/benf/cfr/reader/entities/ClassFile.java:82-217 | builds the class file described by the layout and the decoders: raw supertypes, flags, methods stripped of `ACC_STRICT` when the class is strict, signature, and effective version. The lazy maps are empty, no analysis has begun, and no supertypes are cached |
| `ClassFiles.ClassFile.Load` | src/org/benf/cfr/reader/entities/ClassFile.java:82-177 | a header error is returned as it is, and no loaded class changes. Otherwise a fresh, valid class file is built, and its inner classes are loaded when asked. The new class has no field or method name map yet, has not begun analysis, does not hide a synthetic `this`, and has no bound supertypes yet. Each loaded class the attribute names as an inner class is then marked by the staticness rule; every other loaded class keeps its flags and its `hideSyntheticThis` |
| `ClassFiles.ClassFile.MarkAsStatic` | src/org/benf/cfr/reader/entities/ClassFile.java:276-278 | the access flags gain `ACC_STATIC` and nothing else |
| `ClassMembers.FieldsByNameLastWins` | src/org/benf/cfr/reader/entities/ClassFile.java:286-296 | the name map holds a name exactly when some field has it, and maps it to the last field with that name |
| `ClassFiles.ClassFile.GetFieldByName` | src/org/benf/cfr/reader/entities/ClassFile.java:286-296 | fills the lazy field map. Succeeds exactly when a field has the name, returning the last such field; otherwise fails with `NoSuchField` |
| `ClassMembers.MethodsNamed` | src/org/benf/cfr/reader/entities/ClassFile.java:311-319 | the methods with the given name and no others; empty exactly when no method has it |
| `ClassMembers.MethodsNamedAppend` | src/org/benf/cfr/reader/entities/ClassFile.java:311-319 | the filter keeps order and multiplicity: the methods of a concatenation are those of each part, in turn |
| `ClassMembers.MethodsByNameGroups` | src/org/benf/cfr/reader/entities/ClassFile.java:386-401 | the name map holds a name exactly when some method has it, and maps it to all methods with that name, in order |
| `ClassFiles.ClassFile.GetMethodByName` | src/org/benf/cfr/reader/entities/ClassFile.java:386-401 | fills the lazy method map. Succeeds exactly when a method has the name, returning all of them in order; otherwise fails with `NoSuchMethod` |
| `ClassMembers.Constructors` | src/org/benf/cfr/reader/entities/ClassFile.java:403-409 | exactly the constructors |
| `ClassMembers.ConstructorsAppend` | src/org/benf/cfr/reader/entities/ClassFile.java:403-409 | the selection keeps order and multiplicity: the constructors of a concatenation are those of each part, in turn |
| `ClassFiles.ClassFile.GetConstructors` | src/org/benf/cfr/reader/entities/ClassFile.java:403-409 | a method is returned exactly when it is a constructor of this class |
| `ClassMembers.OverloadPrototypes` | src/org/benf/cfr/reader/entities/ClassFile.java:326-350 | a prototype is listed exactly when it belongs to a method with the query's name and instance-ness that passes the arity test. For a varargs query the method is varargs or has at least as many arguments. Otherwise a varargs method has at most as many arguments, and any other method exactly as many |
| `ClassMembers.KeepFirstByTextDistinct` | src/org/benf/cfr/reader/entities/ClassFile.java:352-366 | de-duplication by `toString` leaves no two entries with equal text. It keeps only input entries and loses no text |
| `ClassMembers.KeepFirstByTextKeepsFirst` | src/org/benf/cfr/reader/entities/ClassFile.java:352-366 | de-duplication keeps the first entry of every text, and the first entry overall stays first |
| `ClassFiles.AddUnmatched` | src/org/benf/cfr/reader/entities/ClassFile.java:352-366 | the loop with the `matched` set yields the query followed by the first prototype of every new text |
| `ClassMembers.OverloadSetSpec` | src/org/benf/cfr/reader/entities/ClassFile.java:321-368 | the overload set starts with the query and has distinct texts. Every later entry is a compatible candidate, and every compatible method's text is represented |
| `ClassFiles.ClassFile.GetOverloadMethodSet` | src/org/benf/cfr/reader/entities/ClassFile.java:321-368 | returns the query first, then compatible candidates, with distinct texts and every compatible text present |
| `ClassFiles.ClassFile.GetMethodByPrototype` | src/org/benf/cfr/reader/entities/ClassFile.java:371-383 | among the methods of the query's name, returns the first exact match. Without one, it returns the last generic match. With neither, it fails with `NoSuchMethod` |
| `ClassFiles.ClassFile.MarkInnerClassAsStatic` | src/org/benf/cfr/reader/entities/ClassFile.java:428-457 | a class that is not an inner class is untouched. If some constructor does not take the outer type first, the class is marked static. Otherwise, when synthetics are removed, the synthetic `this` is hidden |
| `ClassFiles.KeptInnerSound` | src/org/benf/cfr/reader/entities/ClassFile.java:470-486 | every loaded pair comes from an entry that names a class which loads and is an inner class of this class |
| `ClassFiles.KeptInnerComplete` | src/org/benf/cfr/reader/entities/ClassFile.java:470-486 | every such entry is loaded, paired with its class file |
| `ClassFiles.MarkedClassesExactly` | src/org/benf/cfr/reader/entities/ClassFile.java:470-486 | a loaded class is marked exactly when some entry names it as a loadable inner class of this class |
| `ClassFiles.LoadEntry` | src/org/benf/cfr/reader/entities/ClassFile.java:471-486 | an entry naming a loadable inner class of this class is put under its type, and that class alone gets the staticness rule: `ACC_STATIC` added when some constructor does not take the outer type first, otherwise `hideSyntheticThis` set when synthetics are removed. Any other entry leaves the map and every loaded class unchanged |
| `ClassFiles.LoadEntries` | src/org/benf/cfr/reader/entities/ClassFile.java:470-489 | the map becomes the old map with the kept entries put in attribute order. Each loaded class gets the staticness rule exactly when some entry names it, once however often it is named; every other loaded class keeps its flags and `hideSyntheticThis` |
| `ClassFiles.ClassFile.LoadInnerClasses` | src/org/benf/cfr/reader/entities/ClassFile.java:460-490 | without an `InnerClasses` attribute nothing changes. Otherwise the kept entries are put into the insertion-ordered map. The classes the attribute names get the staticness rule, every other loaded class is unchanged, and every named class ends up marked |
| `LinkedMaps.Put` | src/org/benf/cfr/reader/entities/ClassFile.java:486 | the value is stored under the key. A new key is appended to the insertion order; an existing key keeps its place |
| `LinkedMaps.PutAllKeepsOrder` | src/org/benf/cfr/reader/entities/ClassFile.java:470-489 | putting a sequence keeps the map well formed and keeps the earlier keys, in order, as a prefix |
| `LinkedMaps.PutAllKeys` | src/org/benf/cfr/reader/entities/ClassFile.java:470-489 | after putting a sequence, a key is present exactly when it was present before or some pair carries it |
| `LinkedMaps.PutAllLastWins` | src/org/benf/cfr/reader/entities/ClassFile.java:470-489 | the last pair put under a key decides its value |
| `LinkedMaps.PutAllUntouched` | src/org/benf/cfr/reader/entities/ClassFile.java:470-489 | a key no pair carries keeps its old value |
| `ClassMembers.AnalyseMethods` | src/org/benf/cfr/reader/entities/ClassFile.java:526-541 | the pass fails exactly when some method that the state selects fails to analyse |
| `ClassFiles.ClassFile.AnalyseInnerClasses` | src/org/benf/cfr/reader/entities/ClassFile.java:491-497 | a pass succeeds only if every inner class has begun analysis and every class this pass began has no failing selected method and has all its own inner classes begun. So a failure at any depth of nesting propagates. A failure comes from an inner class not begun before the pass, and from some class that this pass began and that has a failing selected method. No begun class is ever un-begun |
| `ClassFiles.ClassFile.AnalyseMid` | src/org/benf/cfr/reader/entities/ClassFile.java:514-545 | a class already begun is left alone and passes. Otherwise the class is marked begun, and no begun class is ever un-begun. A pass means no class this pass began, this one or an inner class at any depth, has a failing selected method. With inner analysis on, a pass also means every class this pass began has all its inner classes begun, so the whole nest below this class was analysed. A failure of the inner classes comes from an un-begun inner class and from some class this pass began that has a failing selected method. Without an inner failure the pass fails exactly when some selected method of this class fails |
| `JavaTypes.ThisGeneralType` | src/org/benf/cfr/reader/entities/ClassFile.java:632-642 | the class's own type is generic exactly when the signature has formal parameters, and then its arguments are those formals as type variables |
| `JavaTypes.IdentityBindings` | src/org/benf/cfr/reader/entities/ClassFile.java:635-637 | the identity binder binds exactly the formals, each to itself |
| `JavaTypes.SubstIdentity` | src/org/benf/cfr/reader/entities/ClassFile.java:635-637 | binding any type through the identity binder leaves it unchanged |
| `JavaTypes.ExtractBindingsOfThisType` | src/org/benf/cfr/reader/entities/ClassFile.java:677-681 | binding this generic type against a generic instance succeeds exactly when the arities agree. When the formal names are distinct, it then binds each formal to the argument at its position |
| `JavaTypes.BoundInstance` | src/org/benf/cfr/reader/entities/ClassFile.java:721 | a bound generic instance keeps its class and its arity; without a binder the type is unchanged |
| `ClassFiles.ClassFile.GetGenericTypeBinder` | src/org/benf/cfr/reader/entities/ClassFile.java:694-702 | a binder exists exactly when the class is generic and the instance has the same arity. When the formal names are distinct, it binds each formal to the instance's argument at its position |
| `BoundSupers.OwnBinder` | src/org/benf/cfr/reader/entities/ClassFile.java:632-642 | the walk starts with a binder exactly when the class has formal type parameters |
| `BoundSupers.BindingSupersShape` | src/org/benf/cfr/reader/entities/ClassFile.java:629-651 | the first record is the class's own type under IDENTITY and no other record is IDENTITY. A present non-variable superclass comes second, under EXTENSION |
| `BoundSupers.SupersOfRouted` | src/org/benf/cfr/reader/entities/ClassFile.java:653-692 | every record of a descent has the caller's route or INTERFACE |
| `BoundSupers.Supers2Routed` | src/org/benf/cfr/reader/entities/ClassFile.java:704-732 | every record reached from a supertype has the given route or INTERFACE |
| `BoundSupers.InterfacesRouted` | src/org/benf/cfr/reader/entities/ClassFile.java:689-691 | every record reached through the interfaces is under INTERFACE |
| `BoundSupers.Supers2InterfacesLast` | src/org/benf/cfr/reader/entities/ClassFile.java:704-732 | on any graph, a superclass walk lists everything reached through an interface after all other records |
| `BoundSupers.SupersOfInterfacesLast` | src/org/benf/cfr/reader/entities/ClassFile.java:653-692 | on any graph, the descent into a known class lists its superclass route before its interfaces' records |
| `BoundSupers.BindingSupersRouteOrder` | src/org/benf/cfr/reader/entities/ClassFile.java:629-651 | on any graph: after the own type, every record is EXTENSION or INTERFACE, and no EXTENSION record follows an INTERFACE record. The superclass and its known ancestors come first, then everything reached through interfaces |
| `BoundSupers.BindingSupersFlat` | src/org/benf/cfr/reader/entities/ClassFile.java:629-651 | with no known class files, the walk is the own type under IDENTITY, the superclass under EXTENSION, then each interface in declared order under INTERFACE |
| `BoundSupers.InterfacesFlat` | src/org/benf/cfr/reader/entities/ClassFile.java:645-647 | with no known class files, the interfaces are recorded one per declared interface, in order, under INTERFACE |
| `BoundSupers.InterfacesSplit` | src/org/benf/cfr/reader/entities/ClassFile.java:689-691 | walking the interfaces is walking a prefix and then the rest |
| `BoundSupers.ThenAssociative` | src/org/benf/cfr/reader/entities/ClassFile.java:704-732 | sequencing walks, where a failure stops the rest, is associative |
| `BoundSupers.ThenUnit` | src/org/benf/cfr/reader/entities/ClassFile.java:704-732 | the empty walk is a unit of sequencing |
| `BoundSupers.BindingSupersTerminates` | src/org/benf/cfr/reader/entities/ClassFile.java:620-651 | on an acyclic graph with enough fuel, the walk never fails for lack of fuel |
| `BoundSupers.SupersOfTerminates` | src/org/benf/cfr/reader/entities/ClassFile.java:653-692 | the descent into a known class never fails for lack of fuel when the fuel covers its rank |
| `BoundSupers.Supers2Terminates` | src/org/benf/cfr/reader/entities/ClassFile.java:704-732 | one supertype step never fails for lack of fuel when the fuel covers the supertype's rank |
| `BoundSupers.InterfacesTerminate` | src/org/benf/cfr/reader/entities/ClassFile.java:689-691 | the interface walk never fails for lack of fuel when the fuel covers every interface's rank |
| `ClassFiles.BoundSupersResult` | src/org/benf/cfr/reader/entities/ClassFile.java:649 | a walk without failure yields its records, in order; a failed walk yields its failure |
| `ClassFiles.BoundSuperCollector.Collect` | src/org/benf/cfr/reader/entities/ClassFile.java:638-641 | the collector appends one record and keeps the earlier ones |
| `ClassFiles.ClassFile.GetBoundSuperClasses2` | src/org/benf/cfr/reader/entities/ClassFile.java:704-732 | appends exactly the records of the one-supertype walk to the collector and reports its failure |
| `ClassFiles.ClassFile.GetBoundSuperClasses` | src/org/benf/cfr/reader/entities/ClassFile.java:653-692 | appends exactly the records of the descent into this class to the collector and reports its failure |
| `ClassFiles.ClassFile.CollectInterfaces` | src/org/benf/cfr/reader/entities/ClassFile.java:689-691 | the loop over the interfaces appends exactly the records of the interface walk and stops at the first failure |
| `ClassFiles.ClassFile.GenerateBoundSuperClasses` | src/org/benf/cfr/reader/entities/ClassFile.java:629-651 | the collected records are the class's binding-supers walk |
| `ClassFiles.ClassFile.GetBindingSupers` | src/org/benf/cfr/reader/entities/ClassFile.java:620-627 | a cached result is returned unchanged and the cache is kept. Otherwise the walk is generated, returned, and cached when it succeeds |
| `LambdaExpressions.StoredName` | src/org/benf/cfr/reader/bytecode/analysis/parse/expression/LambdaExpressionFallback.java:39 | `<init>` is stored as `new`; every other name is stored unchanged |
| `LambdaExpressions.IsColon` | src/org/benf/cfr/reader/bytecode/analysis/parse/expression/LambdaExpressionFallback.java:43-52 | the `::` form is chosen exactly for (0 curried, 1 target, static) or (1 curried, 1 target, instance) |
| `LambdaExpressions.LambdaExpressionFallback.constructor` | src/org/benf/cfr/reader/bytecode/analysis/parse/expression/LambdaExpressionFallback.java:36-53 | stores the mapped name and the other arguments, and fixes `colon` by the two cases above |
| `LambdaExpressions.RenderColonForm` | src/org/benf/cfr/reader/bytecode/analysis/parse/expression/LambdaExpressionFallback.java:77-82 | the `::` form renders as `receiver::name` for an instance reference and as `Class::name` otherwise |
| `LambdaExpressions.LambdaHeadJoined` | src/org/benf/cfr/reader/bytecode/analysis/parse/expression/LambdaExpressionFallback.java:84-90 | the lambda head is `arg_0, ..., arg_{n-1}` joined by `", "`, parenthesised only when n > 1 |
| `LambdaExpressions.CallArgumentsJoined` | src/org/benf/cfr/reader/bytecode/analysis/parse/expression/LambdaExpressionFallback.java:96-107 | the call arguments are the curried texts followed by the parameter names, joined by `", "`, with no leading separator |
| `LambdaExpressions.Render` | src/org/benf/cfr/reader/bytecode/analysis/parse/expression/LambdaExpressionFallback.java:76-110 | the text is missing exactly for the lambda form of an instance reference without curried arguments, where the source reads a receiver that is not there |
| `LambdaExpressions.LambdaExpressionFallback.Dump` | src/org/benf/cfr/reader/bytecode/analysis/parse/expression/LambdaExpressionFallback.java:76-110 | with `colon`, the node renders as `receiver::name` or `Class::name`. Otherwise it renders as the lambda form written with `Join`: parameter names, ` -> `, target, `.`, name, and the curried texts after the receiver followed by the parameter names. It has no text exactly when an instance lambda has no receiver |
| `LambdaExpressions.RenderLambdaForm` | src/org/benf/cfr/reader/bytecode/analysis/parse/expression/LambdaExpressionFallback.java:84-107 | the lambda form is the head, ` -> `, the receiver or class, `.`, the name, and the call. The call's arguments skip the receiver of an instance reference |
| `LambdaExpressions.RenderNeedsReceiver` | src/org/benf/cfr/reader/bytecode/analysis/parse/expression/LambdaExpressionFallback.java:91-92 | the lambda form of an instance reference without curried arguments has no rendering |
| `LambdaExpressions.RenderStaticOneArgument` | src/org/benf/cfr/reader/bytecode/analysis/parse/expression/LambdaExpressionFallback.java:43-82 | a static one-argument reference `Widget.foo` renders as `Widget::foo` |
| `LambdaExpressions.RenderBoundReceiver` | src/org/benf/cfr/reader/bytecode/analysis/parse/expression/LambdaExpressionFallback.java:43-82 | a bound instance reference with one target renders as `receiver::foo` |
| `LambdaExpressions.RenderStaticTwoArguments` | src/org/benf/cfr/reader/bytecode/analysis/parse/expression/LambdaExpressionFallback.java:76-110 | a static two-argument reference renders as `(arg_0, arg_1) -> Widget.foo(arg_0, arg_1)` |
| `LambdaExpressions.RenderConstructorReference` | src/org/benf/cfr/reader/bytecode/analysis/parse/expression/LambdaExpressionFallback.java:36-82 | a one-argument reference to `<init>` renders as `Widget::new` |
| `LambdaExpressions.RewriteAllInOrder` | src/org/benf/cfr/reader/bytecode/analysis/parse/expression/LambdaExpressionFallback.java:61-66 | the rewrite of argument `i` is applied to the original argument `i`, with the state left by rewriting the arguments before it |
| `LambdaExpressions.LambdaExpressionFallback.ApplyExpressionRewriter` | src/org/benf/cfr/reader/bytecode/analysis/parse/expression/LambdaExpressionFallback.java:61-66 | replaces each curried argument in place by its in-order rewrite and keeps the length. It returns the same node and changes no other field |
| `LambdaExpressions.LambdaExpressionFallback.ReplaceSingleUsageLValues` | src/org/benf/cfr/reader/bytecode/analysis/parse/expression/LambdaExpressionFallback.java:55-58 | always fails with an unsupported-operation error |
| `LambdaExpressions.LambdaExpressionFallback.CollectUsedLValues` | src/org/benf/cfr/reader/bytecode/analysis/parse/expression/LambdaExpressionFallback.java:112-115 | always fails |
| `AccessFlagMethods.Build` | src/org/benf/cfr/reader/entities/AccessFlagMethod.java:32-52 | a flag is in the decoded set exactly when its mask bit (0x1 public through 0x1000 synthetic) is set in the raw word |
| `AccessFlagMethods.BuildIgnoresUnknownBits` | src/org/benf/cfr/reader/entities/AccessFlagMethod.java:36-47 | bit 0x200 and every bit above 0x1000 have no effect: `Build(raw) == Build(raw & 0x1DFF)` |
| `AccessFlagMethods.BuildDependsOnFlagBits` | src/org/benf/cfr/reader/entities/AccessFlagMethod.java:36-47 | two words that agree on every flag bit decode to the same set |
| `AccessFlagMethods.BuildZero` | src/org/benf/cfr/reader/entities/AccessFlagMethod.java:49 | decoding 0 gives the empty set |
| `AccessFlagMethods.BuildMonotone` | src/org/benf/cfr/reader/entities/AccessFlagMethod.java:36-47 | if the bits of one word are among those of another, its flags are among the other's |
| `AccessFlagMethods.MaskIsKnown` | src/org/benf/cfr/reader/entities/AccessFlagMethod.java:36-47 | every flag's mask lies within `0x1DFF` |
| `AccessFlagMethods.Name` | src/org/benf/cfr/reader/entities/AccessFlagMethod.java:13-24 | a flag's display name is a block comment `/* ... */` exactly for bridge, varargs, native and synthetic |
| `AccessFlagMethods.NamesDistinct` | src/org/benf/cfr/reader/entities/AccessFlagMethod.java:13-24 | the display names (`strictfp` for `ACC_STRICT`, and so on) of distinct flags differ |
| `SSAIdentifiers.Advance` | src/org/benf/cfr/reader/bytecode/analysis/parse/utils/SSAIdentifierFactory.java:25-26 | one request raises the requested key's counter by one and leaves every other counter unchanged; an absent key counts from 0 |
| `SSAIdentifiers.VersionsConsecutive` | src/org/benf/cfr/reader/bytecode/analysis/parse/utils/SSAIdentifierFactory.java:24-27 | `n` successive requests for a key receive `n` consecutive versions, starting from its current counter |
| `SSAIdentifiers.FreshKeyVersions` | src/org/benf/cfr/reader/bytecode/analysis/parse/utils/SSAIdentifierFactory.java:9-16 | a key never requested receives 0, 1, ..., n-1 |
| `SSAIdentifiers.AdvanceTimesCounters` | src/org/benf/cfr/reader/bytecode/analysis/parse/utils/SSAIdentifierFactory.java:25-26 | `n` requests for one key raise its counter by `n` and leave every other key's counter unchanged |
| `SSAIdentifiers.SSAIdentifierFactory.constructor` | src/org/benf/cfr/reader/bytecode/analysis/parse/utils/SSAIdentifierFactory.java:20-22 | a new factory has no counters and keeps the given comparison function |
| `SSAIdentifiers.SSAIdentifierFactory.GetIdent` | src/org/benf/cfr/reader/bytecode/analysis/parse/utils/SSAIdentifierFactory.java:24-28 | hands out the key's current counter and raises that counter alone by one. The type key is the comparison function applied to the key, or null without one |
| `SSAIdentifiers.SuccessiveRequests` | src/org/benf/cfr/reader/bytecode/analysis/parse/utils/SSAIdentifierFactory.java:24-28 | on a fresh factory, requests k, k, j, k receive 0, 1, 0, 2 |

## Left out

- Integers read from the class file are unsigned. `getS2At` reads signed shorts, so a count or index of 0x8000 or more would be negative in the source. The model reads every 2-byte field as 0..65535 and does not model the sign wrap.
- SSAIdentifiers.SSAIdentifierFactory.GetIdent: counters are unbounded naturals. The Java `Integer` counter would wrap after 2^31 - 1 requests for one key; that is not modelled.
- The constant pool, `AttributeFactory`, `ContiguousEntityFactory`, `ConstantPoolUtils.parseClassSignature` and `GenericTypeBinder` are not part of this model. Their byte lengths and results are inputs (the `Decoders` record). Binding a generic type is modelled by a substitution on the small type datatype.
- ClassFiles.RawInterfaces, ClassFiles.RawSuperClass: the constant-pool reads of the interfaces, this class and the superclass at ClassFile.java:102, :106 and :169 cast the entry to a class entry, which throws when the index names an entry of another kind. The model treats the constant pool's class names as a total input (`Decoders.classNameAt`), so that failure of the constructor is not modelled.
- JavaTypes.ExtractBindingsOfThisType, ClassFiles.ClassFile.GetGenericTypeBinder: positional binding is stated only for distinct formal names. With a repeated name the later position wins, as in a map put; the class-file format does not forbid such a signature, but no claim is made about it.
- Printing is left out: choosing `dumpHelper`, `dump`, `dumpNamedInnerClasses` and the `Dumper` sink. The `System.out` output of `analyseMid` is left out too. The fallback node's `dump` is modelled as a function returning the text.
- `configCallback` is left out, because it is an external hook.
- `CodeAnalyserWholeClass.wholeClassAnalysisPass1`/`Pass2` and `Method.analyse` are bytecode analysis outside this model. `Method.analyse` and the state's `analyseMethod` choice are parameters of `AnalyseMid`.
- `analysePassOuterFirst` and `analyseTop` are left out, because they only sequence the external passes.
- ClassFiles.ClassFile.AnalyseMid: states whether the pass fails, that a pass means no class it began has a failing selected method, and where a failure comes from, but not which methods were tried. It also does not state that the pass begins only classes reachable from this one through inner-class maps. It states that this class is begun, that no class is un-begun, and, on success with inner analysis on, that every class it began has its inner classes begun. Stating the exact reachable set would need a reachability closure over the class graph in the contract, which is not modelled.
- ClassFiles.ClassFile.AnalyseInnerClasses: the same limits as `AnalyseMid`; it is called only when inner classes are analysed, and passes that setting on as true.
- `removePointlessMethod`, `getAllCps`, `getAllClassTypes`, the simple getters and `getAttributeByName` are left out.
- Methods are values, not shared objects. Removing `ACC_STRICT` rebuilds each method with the flag removed. `getMethodByName` returns the methods, not a live list.
- `CFRState.getClassFile` is a map from inner type to an already loaded class file, and a missing key stands for `CannotLoadClassException`. The check that the entry belongs to this class reads the loaded class's own `outer` field, so it is made after the lookup. The kept entries are the same, because an entry that fails to load is skipped either way.
- ClassFiles.ClassFile.Load: loads inner classes right after construction. The source loads them before choosing the dump helper and before the version heuristic; neither depends on the other.
- A constructor with null parameters counts as having no parameters.
- `MethodPrototype.toString` is the prototype's `text` field. The two prototype equalities `equalsMatch` and `equalsGeneric` are parameters of `GetMethodByPrototype`.
- `ClassFileVersion.before` is taken as the lexicographic order on (major, minor).
- The bound-supertype walk carries a fuel bound, because the source assumes the supertype relation is acyclic and does not check it. Running out of fuel (`TooDeep`) stands for the stack overflow of a cyclic hierarchy; `BoundSupers.BindingSupersTerminates` shows it never happens on an acyclic graph with enough fuel.
- A missing superclass or a type variable reaching `getBoundSuperClasses2` fails with `NotGeneric`, for the source's `IllegalStateException`. The collector keeps every record in order; its own de-duplication in `BoundSuperCollector` is not part of this model.
- LambdaExpressions.Render: the instance lambda form without curried arguments is `None`. The source prints the parameter head before `curriedArgs.get(0)` throws, and that partial output is not modelled.
- Expressions inside the fallback node are a type parameter. Rendering one is a function parameter of `Dump`, and a rewriter is a function from expression and state to expression and state.
