/**
 * A decoded class file (`ClassFile`): the constructor's header pass and
 * field set-up, the member lookups, the inner-class loading and staticness
 * marking, the guarded first analysis pass, and the bound-supertype walk
 * with its memo.
 *
 * The constant pool, the field, method and attribute decoders and the
 * class-flag decoder are not part of this model: what they produce is given
 * as `Decoders`. Other class files are reached through maps standing for the
 * decompiler's class loader.
 */
module ClassFiles {
  import opened Wrappers
  import opened JavaTypes
  import opened AccessFlagMethods
  import opened ClassFileLayout
  import opened ClassMembers
  import opened BoundSupers
  import opened LinkedMaps

  /** The class access flags (`AccessFlag`). */
  datatype AccessFlag =
    | ACC_PUBLIC | ACC_PRIVATE | ACC_PROTECTED | ACC_STATIC | ACC_FINAL | ACC_SUPER
    | ACC_INTERFACE | ACC_ABSTRACT | ACC_STRICT | ACC_SYNTHETIC | ACC_ANNOTATION | ACC_ENUM

  /**
   * One entry of the `InnerClasses` attribute (section 4.7.6 of The Java
   * Virtual Machine Specification): the inner class, when the entry names
   * one, and the outer class the entry declares.
   */
  datatype InnerClassEntry = InnerClassEntry(innerType: Option<JType>, outerType: Option<JType>)

  /** A decoded class attribute: the two the class file reads, or any other. */
  datatype Attribute =
    | SignatureAttribute(signature: ClassSignature)
    | InnerClassesAttribute(entries: seq<InnerClassEntry>)
    | OtherAttribute(name: string)

  const SignatureName: string := "Signature"
  const InnerClassesName: string := "InnerClasses"

  function AttributeName(a: Attribute): string {
    match a
    case SignatureAttribute(_) => SignatureName
    case InnerClassesAttribute(_) => InnerClassesName
    case OtherAttribute(n) => n
  }

  /**
   * The attribute map as the attribute factory fills it: every attribute
   * under its own name, and the two names the class file reads only ever
   * holding the attribute of that kind.
   */
  predicate KeyedByName(attrs: map<string, Attribute>) {
    forall n :: n in attrs ==>
      && AttributeName(attrs[n]) == n
      && (attrs[n].OtherAttribute? ==> n != SignatureName && n != InnerClassesName)
  }

  /** The parsed class signature of the `Signature` attribute, if there is one. */
  function SignatureAttributeOf(attrs: map<string, Attribute>): (r: Option<ClassSignature>)
    ensures KeyedByName(attrs) ==> (r.Some? <==> SignatureName in attrs)
  {
    if SignatureName in attrs && attrs[SignatureName].SignatureAttribute? then Some(attrs[SignatureName].signature)
    else None
  }

  /** The entries of the `InnerClasses` attribute, if there is one. */
  function InnerClassesOf(attrs: map<string, Attribute>): (r: Option<seq<InnerClassEntry>>)
    ensures KeyedByName(attrs) ==> (r.Some? <==> InnerClassesName in attrs)
  {
    if InnerClassesName in attrs && attrs[InnerClassesName].InnerClassesAttribute? then Some(attrs[InnerClassesName].entries)
    else None
  }

  /**
   * `getSignature`: the parsed `Signature` attribute when there is one;
   * otherwise a signature with no formal type parameters, the raw
   * superclass and the raw interfaces in their order.
   */
  function SignatureOf(attrs: map<string, Attribute>, rawSuper: Option<JType>, rawIfs: seq<JType>): (sig: ClassSignature)
    ensures SignatureAttributeOf(attrs).Some? ==> sig == SignatureAttributeOf(attrs).value
    ensures SignatureAttributeOf(attrs).None? ==>
      && sig.formals.None? && !HasFormalTypeParameters(sig)
      && sig.superClass == rawSuper
      && sig.interfaces == rawIfs
  {
    match SignatureAttributeOf(attrs)
    case Some(parsed) => parsed
    case None => ClassSignature(None, rawSuper, rawIfs)
  }

  /**
   * What the decoders the constructor calls produce: the constant pool's
   * byte length and its class entries by index, the field and method tables
   * with their byte lengths, the attributes by name, the class access-flag
   * decoder, and the inner-class information of the class's own type (the
   * class it is an inner class of, if any).
   */
  datatype Decoders = Decoders(
    cpLength: nat,
    classNameAt: u2 -> string,
    fieldsLength: nat,
    fields: seq<Field>,
    methodsLength: nat,
    methods: seq<Method>,
    attributes: map<string, Attribute>,
    classFlags: u2 -> set<AccessFlag>,
    outerClass: Option<JType>)

  /** The raw interface types: the class entries the interface indices name, in order. */
  function RawInterfaces(layout: Layout, dec: Decoders): (ifs: seq<JType>)
    ensures |ifs| == |layout.interfaceIndices|
    ensures forall i :: 0 <= i < |ifs| ==> ifs[i] == Ref(dec.classNameAt(layout.interfaceIndices[i]))
  {
    seq(|layout.interfaceIndices|, i requires 0 <= i < |layout.interfaceIndices| =>
      Ref(dec.classNameAt(layout.interfaceIndices[i])))
  }

  /** The raw superclass: none for index 0, otherwise the class entry it names. */
  function RawSuperClass(layout: Layout, dec: Decoders): (t: Option<JType>)
    ensures t.None? <==> layout.superClassIndex == 0
    ensures t.Some? ==> t.value == Ref(dec.classNameAt(layout.superClassIndex))
  {
    match SuperClassIndex(layout)
    case None => None
    case Some(i) => Some(Ref(dec.classNameAt(i)))
  }

  /** `ACC_STRICT` removed from every method, one method at a time. */
  method RemoveStrict(ms: seq<Method>) returns (r: seq<Method>)
    ensures r == StripStrict(ms)
  {
    r := ms;
    for i := 0 to |r|
      invariant |r| == |ms|
      invariant r[..i] == StripStrict(ms)[..i]
      invariant r[i..] == ms[i..]
    {
      assert r[i] == ms[i..][0];
      r := r[i := r[i].(accessFlags := r[i].accessFlags - {AccessFlagMethod.ACC_STRICT})];
      assert r[..i + 1] == StripStrict(ms)[..i + 1] by {
        assert r[..i + 1] == r[..i] + [r[i]];
        assert StripStrict(ms)[..i + 1] == StripStrict(ms)[..i] + [StripStrict(ms)[i]];
      }
      assert r[i + 1..] == ms[i + 1..] by {
        assert forall k :: i + 1 <= k < |r| ==> r[k] == ms[i..][k - i];
      }
    }
    assert r == r[..|r|];
  }

  /**
   * The de-duplication loop of `getOverloadMethodSet`: the query first, then
   * each prototype whose `toString` is not yet in the `matched` set.
   */
  method AddUnmatched(query: MethodPrototype, prototypes: seq<MethodPrototype>) returns (out: seq<MethodPrototype>)
    ensures out == KeepFirstByText([query] + prototypes)
  {
    ghost var ps := [query] + prototypes;
    out := [query];
    var matched := {query.text};
    KeepFirstByTextSnoc(ps, 0);
    TextsOfSnoc([], query);
    for i := 0 to |prototypes|
      invariant out == KeepFirstByText(ps[..i + 1])
      invariant matched == TextsOf(out)
    {
      KeepFirstByTextSnoc(ps, i + 1);
      var other := prototypes[i];
      TextsOfSnoc(out, other);
      if other.text !in matched {
        out := out + [other];
        matched := matched + {other.text};
      }
    }
    assert ps[..|prototypes| + 1] == ps;
  }

  /** A constructor takes the outer instance first: it has a first parameter and that parameter is the outer type. */
  predicate TakesOuterFirst(ctor: Method, outerType: JType) {
    ctor.prototype.args != [] && ctor.prototype.args[0] == outerType
  }

  /** An inner class is static when some constructor does not take the outer instance first. */
  predicate StaticInner(ctors: seq<Method>, outerType: JType) {
    exists i :: 0 <= i < |ctors| && !TakesOuterFirst(ctors[i], outerType)
  }

  /** The entry names a class that loads and is an inner class of `thisType`. */
  predicate Named(e: InnerClassEntry, thisType: JType, loader: map<JType, ClassFile>) {
    e.innerType.Some? && e.innerType.value in loader && loader[e.innerType.value].outer == Some(thisType)
  }

  /** `kv` is what the entry puts: the inner type, with the entry and the loaded class file. */
  predicate Keeps(e: InnerClassEntry, thisType: JType, loader: map<JType, ClassFile>, kv: (JType, (InnerClassEntry, ClassFile))) {
    Named(e, thisType, loader) && kv == (e.innerType.value, (e, loader[e.innerType.value]))
  }

  /**
   * The `loadInnerClasses` filter: the entries that name an inner class, whose
   * class file loads, and whose class is an inner class of `thisType`, each
   * paired with its loaded class file, in attribute order.
   */
  function KeptInner(entries: seq<InnerClassEntry>, thisType: JType, loader: map<JType, ClassFile>)
    : (kept: seq<(JType, (InnerClassEntry, ClassFile))>)
    ensures |kept| <= |entries|
    decreases |entries|
  {
    if entries == [] then []
    else
      var n := |entries| - 1;
      var e := entries[n];
      assert entries == entries[..n] + [e];
      KeptInner(entries[..n], thisType, loader)
        + (if Named(e, thisType, loader)
           then [(e.innerType.value, (e, loader[e.innerType.value]))] else [])
  }

  /** Every kept pair comes from an entry that names a loadable inner class of `thisType`. */
  lemma {:induction false} KeptInnerSound(entries: seq<InnerClassEntry>, thisType: JType, loader: map<JType, ClassFile>)
    ensures forall j :: 0 <= j < |KeptInner(entries, thisType, loader)| ==>
      exists i :: 0 <= i < |entries| && Keeps(entries[i], thisType, loader, KeptInner(entries, thisType, loader)[j])
    decreases |entries|
  {
    if entries != [] {
      var n := |entries| - 1;
      KeptInnerSound(entries[..n], thisType, loader);
      var prefix := KeptInner(entries[..n], thisType, loader);
      var kept := KeptInner(entries, thisType, loader);
      assert kept == prefix + (if Named(entries[n], thisType, loader)
        then [(entries[n].innerType.value, (entries[n], loader[entries[n].innerType.value]))] else []);
      forall j | 0 <= j < |kept|
        ensures exists i :: 0 <= i < |entries| && Keeps(entries[i], thisType, loader, kept[j])
      {
        if j < |prefix| {
          var i :| 0 <= i < n && Keeps(entries[..n][i], thisType, loader, prefix[j]);
          assert Keeps(entries[i], thisType, loader, kept[j]);
        } else {
          assert Keeps(entries[n], thisType, loader, kept[j]);
        }
      }
    } else {
      assert KeptInner(entries, thisType, loader) == [];
    }
  }

  /** Every entry that names a loadable inner class of `thisType` is kept, with its class file. */
  lemma {:induction false} KeptInnerComplete(entries: seq<InnerClassEntry>, thisType: JType, loader: map<JType, ClassFile>)
    ensures forall i :: 0 <= i < |entries| && Named(entries[i], thisType, loader) ==>
      (entries[i].innerType.value, (entries[i], loader[entries[i].innerType.value])) in KeptInner(entries, thisType, loader)
    decreases |entries|
  {
    if entries != [] {
      var n := |entries| - 1;
      KeptInnerComplete(entries[..n], thisType, loader);
      forall i | 0 <= i < n && Named(entries[i], thisType, loader)
        ensures (entries[i].innerType.value, (entries[i], loader[entries[i].innerType.value])) in KeptInner(entries, thisType, loader)
      {
        assert entries[..n][i] == entries[i];
      }
    }
  }

  /** No method's prototype is equal to the query by `eq`. */
  predicate NoMatch(named: seq<Method>, query: MethodPrototype, eq: (MethodPrototype, MethodPrototype) -> bool) {
    forall j :: 0 <= j < |named| ==> !eq(named[j].prototype, query)
  }

  /** `named[i]` is the first method whose prototype is equal to the query by `eq`. */
  predicate FirstMatchAt(named: seq<Method>, query: MethodPrototype, eq: (MethodPrototype, MethodPrototype) -> bool, i: int) {
    0 <= i < |named| && eq(named[i].prototype, query) && forall j :: 0 <= j < i ==> !eq(named[j].prototype, query)
  }

  /** `named[i]` is the last method whose prototype is equal to the query by `eq`. */
  predicate LastMatchAt(named: seq<Method>, query: MethodPrototype, eq: (MethodPrototype, MethodPrototype) -> bool, i: int) {
    0 <= i < |named| && eq(named[i].prototype, query) && forall j :: i < j < |named| ==> !eq(named[j].prototype, query)
  }

  /**
   * `named[i]` is the method `getMethodByPrototype` picks: the first exact
   * match, or, with no exact match, the last generic match.
   */
  predicate MatchAt(named: seq<Method>, query: MethodPrototype,
                    equalsMatch: (MethodPrototype, MethodPrototype) -> bool,
                    equalsGeneric: (MethodPrototype, MethodPrototype) -> bool, i: int) {
    || FirstMatchAt(named, query, equalsMatch, i)
    || (NoMatch(named, query, equalsMatch) && LastMatchAt(named, query, equalsGeneric, i))
  }

  lemma KeptInnerSnoc(entries: seq<InnerClassEntry>, i: nat, thisType: JType, loader: map<JType, ClassFile>)
    requires i < |entries|
    ensures KeptInner(entries[..i + 1], thisType, loader)
      == KeptInner(entries[..i], thisType, loader)
         + (if Named(entries[i], thisType, loader)
            then [(entries[i].innerType.value, (entries[i], loader[entries[i].innerType.value]))] else [])
  {
    assert entries[..i + 1][..i] == entries[..i];
  }

  /** The class files a loader can hand out. */
  function Loaded(loader: map<JType, ClassFile>): set<ClassFile> {
    set t | t in loader :: loader[t]
  }

  /**
   * The staticness rule applied to a loaded inner class of `outerType`:
   * static when some constructor does not take the outer instance first,
   * otherwise its synthetic outer parameter hidden when synthetics are
   * removed.
   */
  ghost predicate Marked(c: ClassFile, outerType: JType, removeSynthetics: bool)
    reads c
  {
    && (StaticInner(Constructors(c.methods), outerType) ==> AccessFlag.ACC_STATIC in c.accessFlags)
    && (!StaticInner(Constructors(c.methods), outerType) && removeSynthetics ==> c.hideSyntheticThis)
  }

  /**
   * The flags and the hidden-outer-parameter bit of `c`, starting from
   * `flags0` and `hide0`, after the staticness rule was applied to it when
   * `marked` holds, and left alone otherwise.
   */
  ghost predicate MarkedState(c: ClassFile, flags0: set<AccessFlag>, hide0: bool,
                              outerType: JType, removeSynthetics: bool, marked: bool)
    reads c
  {
    && c.accessFlags == MarkFlags(flags0, c.methods, outerType, marked)
    && c.hideSyntheticThis == MarkHide(hide0, c.methods, outerType, removeSynthetics, marked)
  }

  /** The flags of a class with these methods after the staticness rule, when `marked`. */
  function MarkFlags(flags0: set<AccessFlag>, ms: seq<Method>, outerType: JType, marked: bool): set<AccessFlag> {
    if marked && StaticInner(Constructors(ms), outerType) then flags0 + {AccessFlag.ACC_STATIC} else flags0
  }

  /** The hidden-outer-parameter bit of a class with these methods after the staticness rule, when `marked`. */
  function MarkHide(hide0: bool, ms: seq<Method>, outerType: JType, removeSynthetics: bool, marked: bool): bool {
    if marked && !StaticInner(Constructors(ms), outerType) && removeSynthetics then true else hide0
  }

  /** Applying the staticness rule again changes nothing. */
  lemma MarkTwice(flags0: set<AccessFlag>, hide0: bool, ms: seq<Method>, outerType: JType, removeSynthetics: bool, a: bool, b: bool)
    ensures MarkFlags(MarkFlags(flags0, ms, outerType, a), ms, outerType, b) == MarkFlags(flags0, ms, outerType, a || b)
    ensures MarkHide(MarkHide(hide0, ms, outerType, removeSynthetics, a), ms, outerType, removeSynthetics, b)
      == MarkHide(hide0, ms, outerType, removeSynthetics, a || b)
  {
  }

  /** The class files the entries name as loadable inner classes of `thisType`. */
  function MarkedClasses(entries: seq<InnerClassEntry>, thisType: JType, loader: map<JType, ClassFile>)
    : set<ClassFile>
    decreases |entries|
  {
    if entries == [] then {}
    else
      var n := |entries| - 1;
      MarkedClasses(entries[..n], thisType, loader)
        + (if Named(entries[n], thisType, loader) then {loader[entries[n].innerType.value]} else {})
  }

  /** A class file is marked exactly when some entry names it as a loadable inner class of `thisType`. */
  lemma {:induction false} MarkedClassesExactly(entries: seq<InnerClassEntry>, thisType: JType,
                                                loader: map<JType, ClassFile>, c: ClassFile)
    ensures c in MarkedClasses(entries, thisType, loader) <==>
      exists i :: 0 <= i < |entries| && Named(entries[i], thisType, loader) && loader[entries[i].innerType.value] == c
    decreases |entries|
  {
    if entries != [] {
      var n := |entries| - 1;
      MarkedClassesExactly(entries[..n], thisType, loader, c);
      if c in MarkedClasses(entries[..n], thisType, loader) {
        var i :| 0 <= i < n && Named(entries[..n][i], thisType, loader) && loader[entries[..n][i].innerType.value] == c;
        assert entries[..n][i] == entries[i];
      }
      if exists i :: 0 <= i < |entries| && Named(entries[i], thisType, loader) && loader[entries[i].innerType.value] == c {
        var i :| 0 <= i < |entries| && Named(entries[i], thisType, loader) && loader[entries[i].innerType.value] == c;
        if i < n {
          assert entries[..n][i] == entries[i];
        }
      }
    }
  }

  lemma {:induction false} MarkedClassesLoaded(entries: seq<InnerClassEntry>, thisType: JType, loader: map<JType, ClassFile>)
    ensures MarkedClasses(entries, thisType, loader) <= Loaded(loader)
    decreases |entries|
  {
    if entries != [] {
      MarkedClassesLoaded(entries[..|entries| - 1], thisType, loader);
    }
  }

  lemma MarkedClassesSnoc(entries: seq<InnerClassEntry>, i: nat, thisType: JType, loader: map<JType, ClassFile>)
    requires i < |entries|
    ensures MarkedClasses(entries[..i + 1], thisType, loader)
      == MarkedClasses(entries[..i], thisType, loader)
         + (if Named(entries[i], thisType, loader) then {loader[entries[i].innerType.value]} else {})
  {
    assert entries[..i + 1][..i] == entries[..i];
  }

  /**
   * One step of the `loadInnerClasses` loop: an entry that names a loadable
   * inner class of `thisType` has its class marked by the staticness rule
   * and is put under its type; any other entry is skipped. No other loaded
   * class changes.
   */
  method LoadEntry(lm: LinkedMap<JType, (InnerClassEntry, ClassFile)>, e: InnerClassEntry,
                   thisType: JType, loader: map<JType, ClassFile>, removeSynthetics: bool)
    returns (r: LinkedMap<JType, (InnerClassEntry, ClassFile)>)
    modifies Loaded(loader)`accessFlags, Loaded(loader)`hideSyntheticThis
    ensures Named(e, thisType, loader) ==> r == Put(lm, e.innerType.value, (e, loader[e.innerType.value]))
    ensures !Named(e, thisType, loader) ==> r == lm
    ensures forall c :: c in Loaded(loader) ==>
      MarkedState(c, old(c.accessFlags), old(c.hideSyntheticThis), thisType, removeSynthetics,
                  Named(e, thisType, loader) && loader[e.innerType.value] == c)
  {
    r := lm;
    var innerType := e.innerType;
    if innerType.None? {
      return;
    }
    if innerType.value !in loader {
      return;
    }
    var innerClass := loader[innerType.value];
    if innerClass.outer != Some(thisType) {
      return;
    }
    assert innerClass in Loaded(loader);
    ClassFile.MarkInnerClassAsStatic(innerClass, thisType, removeSynthetics);
    r := Put(lm, innerType.value, (e, innerClass));
  }

  /**
   * The `loadInnerClasses` loop: each entry that names a loadable inner class
   * of `thisType` has its class marked by the staticness rule and is put
   * under its type, in attribute order. Every other loaded class is left
   * alone, and a class named twice is marked as if once.
   */
  method LoadEntries(lm: LinkedMap<JType, (InnerClassEntry, ClassFile)>, entries: seq<InnerClassEntry>,
                     thisType: JType, loader: map<JType, ClassFile>, removeSynthetics: bool)
    returns (r: LinkedMap<JType, (InnerClassEntry, ClassFile)>)
    requires LinkedMaps.Valid(lm)
    modifies Loaded(loader)`accessFlags, Loaded(loader)`hideSyntheticThis
    ensures LinkedMaps.Valid(r)
    ensures r == PutAll(lm, KeptInner(entries, thisType, loader))
    ensures forall c :: c in Loaded(loader) ==>
      MarkedState(c, old(c.accessFlags), old(c.hideSyntheticThis), thisType, removeSynthetics,
                  c in MarkedClasses(entries, thisType, loader))
  {
    r := lm;
    ghost var kept := [];
    for i := 0 to |entries|
      invariant LinkedMaps.Valid(r)
      invariant kept == KeptInner(entries[..i], thisType, loader)
      invariant r == PutAll(lm, kept)
      invariant forall c :: c in Loaded(loader) ==>
        MarkedState(c, old(c.accessFlags), old(c.hideSyntheticThis), thisType, removeSynthetics,
                    c in MarkedClasses(entries[..i], thisType, loader))
    {
      KeptInnerSnoc(entries, i, thisType, loader);
      MarkedClassesSnoc(entries, i, thisType, loader);
      var e := entries[i];
      if Named(e, thisType, loader) {
        PutAllSnoc(lm, kept, (e.innerType.value, (e, loader[e.innerType.value])));
        kept := kept + [(e.innerType.value, (e, loader[e.innerType.value]))];
      }
      label Head:
      r := LoadEntry(r, e, thisType, loader, removeSynthetics);
      forall c | c in Loaded(loader)
        ensures MarkedState(c, old(c.accessFlags), old(c.hideSyntheticThis), thisType, removeSynthetics,
                            c in MarkedClasses(entries[..i + 1], thisType, loader))
      {
        MarkTwice(old(c.accessFlags), old(c.hideSyntheticThis), c.methods, thisType, removeSynthetics,
                  c in MarkedClasses(entries[..i], thisType, loader), Named(e, thisType, loader) && loader[e.innerType.value] == c);
      }
    }
    assert entries[..|entries|] == entries;
  }

  /** The class files not yet analysed. */
  ghost function Unbegun(universe: set<ClassFile>): set<ClassFile>
    reads universe`begunAnalysis
  {
    set c | c in universe && !c.begunAnalysis
  }

  /** Every class file's inner classes are valid and themselves in the universe. */
  ghost predicate Closed(universe: set<ClassFile>)
    reads universe`innerClasses
  {
    forall c :: c in universe ==>
      && LinkedMaps.Valid(c.innerClasses)
      && forall k :: k in c.innerClasses.entries ==> c.innerClasses.entries[k].1 in universe
  }

  lemma ProperSubsetSmaller(a: set<ClassFile>, b: set<ClassFile>)
    requires a < b
    ensures |a| < |b|
  {
    assert !(b <= a);
    var x :| x in b && x !in a;
    assert x in b - a;
    assert b * a == a;
    assert |b - a| == |b| - |a|;
  }

  /** Some method the state selects fails to analyse. */
  predicate MethodFails(ms: seq<Method>, analyseMethod: string -> bool, analyse: Method -> bool) {
    exists m :: m in ms && analyseMethod(m.name) && !analyse(m)
  }

  lemma SubsetNoLarger(a: set<ClassFile>, b: set<ClassFile>)
    requires a <= b
    ensures |a| <= |b|
  {
    assert b == a + (b - a);
  }

  lemma FinishedOneMore(entries: map<JType, (InnerClassEntry, ClassFile)>, keys: seq<JType>, i: nat, done: set<ClassFile>)
    requires i < |keys| && forall j :: 0 <= j < |keys| ==> keys[j] in entries
    requires forall j :: 0 <= j < i ==> entries[keys[j]].1 in done
    ensures forall j :: 0 <= j < i + 1 ==> entries[keys[j]].1 in done + {entries[keys[i]].1}
  {
  }

  /** The exception `analyseMid` raises after a method failed to analyse. */
  datatype AnalysisError = FailedToAnalyse

  /** The error of a lookup by name or prototype. */
  datatype LookupError = NoSuchField | NoSuchMethod

  /** Known class files, by class name (`JavaRefTypeInstance.getClassFile`). */
  ghost predicate Consistent(graph: map<string, ClassFile>) {
    forall n :: n in graph ==> graph[n].thisName == n
  }

  /** The class signatures of the known class files. */
  function Signatures(graph: map<string, ClassFile>): Graph {
    map n | n in graph :: graph[n].classSignature
  }

  /** The outcome of `generateBoundSuperClasses` for a walk: its records, or the failure it raised. */
  function BoundSupersResult(w: Walk): (r: Result<seq<Record>, WalkFailure>)
    ensures r.Ok? <==> w.failure.None?
    ensures r.Ok? ==> r.value == w.records
    ensures r.Err? ==> r.error == w.failure.value
  {
    match w.failure
    case None => Ok(w.records)
    case Some(f) => Err(f)
  }

  /** `BoundSuperCollector`: the supertypes collected so far, in order. */
  class BoundSuperCollector {
    var records: seq<Record>

    constructor ()
      ensures records == []
    {
      records := [];
    }

    method Collect(bound: JType, route: Route)
      modifies this
      ensures records == old(records) + [Record(bound, route)]
    {
      records := records + [Record(bound, route)];
    }
  }

  class ClassFile {
    const thisName: string
    const rawSuperClass: Option<JType>
    const rawInterfaces: seq<JType>
    const classSignature: ClassSignature
    const fields: seq<Field>
    const methods: seq<Method>
    const attributes: map<string, Attribute>
    const classFileVersion: ClassFileVersion
    const comments: seq<Comment>
    /** The inner-class information of this class's type: the class it is an inner class of, if any. */
    const outer: Option<JType>

    var accessFlags: set<AccessFlag>
    var fieldsByName: Option<map<string, Field>>
    var methodsByName: Option<map<string, seq<Method>>>
    var innerClasses: LinkedMap<JType, (InnerClassEntry, ClassFile)>
    var begunAnalysis: bool
    var hideSyntheticThis: bool
    var boundSuperClasses: Option<seq<Record>>

    /** The attributes are keyed by name, the lazy maps agree with the tables, and the inner-class map is valid. */
    ghost predicate Valid()
      reads this`fieldsByName, this`methodsByName, this`innerClasses
    {
      && KeyedByName(attributes)
      && (fieldsByName.Some? ==> fieldsByName.value == FieldsByName(fields))
      && (methodsByName.Some? ==> methodsByName.value == MethodsByName(methods))
      && LinkedMaps.Valid(innerClasses)
    }

    /**
     * The state the constructor leaves, read off the header layout and the
     * decoders: this class and its raw supertypes from the constant pool,
     * the decoded flags, methods without `ACC_STRICT` when the class is
     * strict, the signature, and the effective version with its comment.
     */
    ghost predicate Built(layout: Layout, dec: Decoders)
      reads this
    {
      && thisName == dec.classNameAt(layout.thisClassIndex)
      && rawSuperClass == RawSuperClass(layout, dec)
      && rawInterfaces == RawInterfaces(layout, dec)
      && accessFlags == dec.classFlags(layout.accessFlags)
      && fields == dec.fields
      && methods == (if AccessFlag.ACC_STRICT in accessFlags then StripStrict(dec.methods) else dec.methods)
      && attributes == dec.attributes
      && classSignature == SignatureOf(attributes, rawSuperClass, rawInterfaces)
      && (classFileVersion, comments)
         == EffectiveVersion(ClassFileVersion(layout.majorVer, layout.minorVer), SignatureAttributeOf(attributes).Some?, methods)
      && outer == dec.outerClass
    }

    /** The constructor after the header pass; inner classes are loaded by `LoadInnerClasses`. */
    constructor (layout: Layout, dec: Decoders)
      requires KeyedByName(dec.attributes)
      ensures Valid() && Built(layout, dec)
      ensures fieldsByName.None? && methodsByName.None? && innerClasses == Empty()
      ensures !begunAnalysis && !hideSyntheticThis && boundSuperClasses.None?
    {
      var flags := dec.classFlags(layout.accessFlags);
      var ms := dec.methods;
      if AccessFlag.ACC_STRICT in flags {
        ms := RemoveStrict(ms);
      }
      var rawSuper := RawSuperClass(layout, dec);
      var rawIfs := RawInterfaces(layout, dec);
      var version := EffectiveVersion(ClassFileVersion(layout.majorVer, layout.minorVer),
                                      SignatureAttributeOf(dec.attributes).Some?, ms);
      thisName := dec.classNameAt(layout.thisClassIndex);
      rawSuperClass := rawSuper;
      rawInterfaces := rawIfs;
      accessFlags := flags;
      fields := dec.fields;
      methods := ms;
      attributes := dec.attributes;
      classSignature := SignatureOf(dec.attributes, rawSuper, rawIfs);
      classFileVersion := version.0;
      comments := version.1;
      outer := dec.outerClass;
      fieldsByName := None;
      methodsByName := None;
      innerClasses := Empty();
      begunAnalysis := false;
      hideSyntheticThis := false;
      boundSuperClasses := None;
    }

    /**
     * Decoding a class file: the header pass fails on a bad magic number or
     * a truncated header; otherwise the class file is built and, when asked,
     * its inner classes are loaded.
     */
    static method Load(data: seq<byte>, dec: Decoders, withInnerClasses: bool, removeSynthetics: bool,
                       loader: map<JType, ClassFile>)
      returns (r: Result<ClassFile, LayoutError>)
      requires KeyedByName(dec.attributes)
      modifies Loaded(loader)`accessFlags, Loaded(loader)`hideSyntheticThis
      ensures var layout := ParseLayout(data, dec.cpLength, dec.fieldsLength, dec.methodsLength);
        && (layout.Err? ==> r == Err(layout.error))
        && (layout.Ok? ==>
              && r.Ok? && fresh(r.value) && r.value.Valid() && r.value.Built(layout.value, dec)
              && r.value.innerClasses == (if withInnerClasses then r.value.LoadedInnerClasses(Empty(), loader) else Empty())
              && r.value.fieldsByName.None? && r.value.methodsByName.None?
              && !r.value.begunAnalysis && !r.value.hideSyntheticThis && r.value.boundSuperClasses.None?)
      ensures forall c :: c in Loaded(loader) ==>
        if r.Ok? && withInnerClasses
        then MarkedState(c, old(c.accessFlags), old(c.hideSyntheticThis), Ref(r.value.thisName), removeSynthetics,
                         c in r.value.InnerMarked(loader))
        else c.accessFlags == old(c.accessFlags) && c.hideSyntheticThis == old(c.hideSyntheticThis)
    {
      var layout := ParseLayout(data, dec.cpLength, dec.fieldsLength, dec.methodsLength);
      if layout.Err? {
        return Err(layout.error);
      }
      var cf := new ClassFile(layout.value, dec);
      if withInnerClasses {
        cf.LoadInnerClasses(loader, removeSynthetics);
      }
      return Ok(cf);
    }

    /** `markAsStatic`. */
    method MarkAsStatic()
      modifies this`accessFlags
      ensures accessFlags == old(accessFlags) + {AccessFlag.ACC_STATIC}
    {
      accessFlags := accessFlags + {AccessFlag.ACC_STATIC};
    }

    /** `getFieldByName`, building the name map on first use. */
    method GetFieldByName(name: string) returns (r: Result<Field, LookupError>)
      requires Valid()
      modifies this`fieldsByName
      ensures Valid() && fieldsByName == Some(FieldsByName(fields))
      ensures r.Ok? <==> exists i :: 0 <= i < |fields| && fields[i].name == name
      ensures r.Err? ==> r.error == NoSuchField
      ensures r.Ok? ==> exists i ::
        && 0 <= i < |fields| && fields[i] == r.value && r.value.name == name
        && forall j :: i < j < |fields| ==> fields[j].name != name
    {
      if fieldsByName.None? {
        var m: map<string, Field> := map[];
        for i := 0 to |fields|
          invariant m == FieldsByName(fields[..i])
        {
          assert fields[..i + 1][..i] == fields[..i];
          m := m[fields[i].name := fields[i]];
        }
        assert fields[..|fields|] == fields;
        fieldsByName := Some(m);
      }
      FieldsByNameLastWins(fields, name);
      var byName := fieldsByName.value;
      if name !in byName {
        return Err(NoSuchField);
      }
      return Ok(byName[name]);
    }

    /** `getMethodByName`, building the name map on first use. */
    method GetMethodByName(name: string) returns (r: Result<seq<Method>, LookupError>)
      requires Valid()
      modifies this`methodsByName
      ensures Valid() && methodsByName == Some(MethodsByName(methods))
      ensures r.Ok? <==> exists m :: m in methods && m.name == name
      ensures r.Err? ==> r.error == NoSuchMethod
      ensures r.Ok? ==> r.value == MethodsNamed(methods, name)
    {
      if methodsByName.None? {
        var byName: map<string, seq<Method>> := map[];
        for i := 0 to |methods|
          invariant byName == MethodsByName(methods[..i])
        {
          assert methods[..i + 1][..i] == methods[..i];
          var m := methods[i];
          var list := if m.name in byName then byName[m.name] else [];
          byName := byName[m.name := list + [m]];
        }
        assert methods[..|methods|] == methods;
        methodsByName := Some(byName);
      }
      MethodsByNameGroups(methods, name);
      var byName := methodsByName.value;
      if name !in byName {
        return Err(NoSuchMethod);
      }
      return Ok(byName[name]);
    }

    /** `getConstructors`: the constructors, in declaration order. */
    method GetConstructors() returns (res: seq<Method>)
      ensures res == Constructors(methods)
      ensures forall m :: m in res <==> m in methods && m.isConstructor
    {
      res := [];
      for i := 0 to |methods|
        invariant res == Constructors(methods[..i])
      {
        assert methods[..i + 1][..i] == methods[..i];
        if methods[i].isConstructor {
          res := res + [methods[i]];
        }
      }
      assert methods[..|methods|] == methods;
    }

    /**
     * `getOverloadMethodSet`: the query prototype first, then the prototypes
     * of the compatible methods of the same name in declaration order, each
     * dropped when one with the same `toString` is already in the set.
     */
    method GetOverloadMethodSet(query: MethodPrototype) returns (out: seq<MethodPrototype>)
      ensures out == KeepFirstByText([query] + OverloadPrototypes(methods, query))
      ensures out != [] && out[0] == query
      ensures forall i, j :: 0 <= i < j < |out| ==> out[i].text != out[j].text
      ensures forall i :: 1 <= i < |out| ==> CandidatePrototype(methods, query, out[i])
      ensures forall m :: m in methods && OverloadCandidate(query, m) ==> m.prototype.text in TextsOf(out)
    {
      var prototypes := OverloadPrototypes(methods, query);
      out := AddUnmatched(query, prototypes);
      OverloadSetSpec(methods, query, out);
    }

    /**
     * `getMethodByPrototype` among the methods of the query's name: the first
     * whose prototype `equalsMatch` the query; failing that, the last whose
     * prototype `equalsGeneric` it; failing that, an error.
     */
    method GetMethodByPrototype(query: MethodPrototype,
                                equalsMatch: (MethodPrototype, MethodPrototype) -> bool,
                                equalsGeneric: (MethodPrototype, MethodPrototype) -> bool)
      returns (r: Result<Method, LookupError>)
      ensures r.Err? ==> r.error == NoSuchMethod
      ensures r.Err? ==> NoMatch(MethodsNamed(methods, query.name), query, equalsMatch)
      ensures r.Err? ==> NoMatch(MethodsNamed(methods, query.name), query, equalsGeneric)
      ensures r.Ok? ==> exists i ::
        && 0 <= i < |MethodsNamed(methods, query.name)|
        && r.value == MethodsNamed(methods, query.name)[i]
        && MatchAt(MethodsNamed(methods, query.name), query, equalsMatch, equalsGeneric, i)
    {
      var named := MethodsNamed(methods, query.name);
      var methodMatch: Option<Method> := None;
      ghost var at := 0;
      for i := 0 to |named|
        invariant forall j :: 0 <= j < i ==> !equalsMatch(named[j].prototype, query)
        invariant methodMatch.None? ==> forall j :: 0 <= j < i ==> !equalsGeneric(named[j].prototype, query)
        invariant methodMatch.Some? ==>
          && at < i && methodMatch.value == named[at]
          && equalsGeneric(named[at].prototype, query)
          && forall j :: at < j < i ==> !equalsGeneric(named[j].prototype, query)
      {
        var tgt := named[i].prototype;
        if equalsMatch(tgt, query) {
          assert MatchAt(named, query, equalsMatch, equalsGeneric, i);
          return Ok(named[i]);
        }
        if equalsGeneric(tgt, query) {
          methodMatch := Some(named[i]);
          at := i;
        }
      }
      if methodMatch.Some? {
        assert MatchAt(named, query, equalsMatch, equalsGeneric, at);
        return Ok(methodMatch.value);
      }
      return Err(NoSuchMethod);
    }

    /**
     * `markInnerClassAsStatic`: an inner class is marked static when some
     * constructor does not take this class's instance first; when all do,
     * its synthetic outer parameter is hidden if synthetics are removed. A
     * class that is not an inner class is left alone.
     */
    static method MarkInnerClassAsStatic(inner: ClassFile, thisType: JType, removeSynthetics: bool)
      modifies inner`accessFlags, inner`hideSyntheticThis
      ensures var isStatic := inner.outer.Some? && StaticInner(Constructors(inner.methods), thisType);
        && inner.accessFlags == (if isStatic then old(inner.accessFlags) + {AccessFlag.ACC_STATIC} else old(inner.accessFlags))
        && inner.hideSyntheticThis
           == (if inner.outer.Some? && !isStatic && removeSynthetics then true else old(inner.hideSyntheticThis))
    {
      var constructors := inner.GetConstructors();
      if inner.outer.None? {
        return;
      }
      for i := 0 to |constructors|
        invariant forall j :: 0 <= j < i ==> TakesOuterFirst(constructors[j], thisType)
      {
        var params := constructors[i].prototype.args;
        if params == [] || params[0] != thisType {
          inner.MarkAsStatic();
          return;
        }
      }
      if removeSynthetics {
        inner.hideSyntheticThis := true;
      }
    }

    /** The inner-class map after loading from `lm`: the kept entries put in attribute order. */
    ghost function LoadedInnerClasses(lm: LinkedMap<JType, (InnerClassEntry, ClassFile)>, loader: map<JType, ClassFile>)
      : LinkedMap<JType, (InnerClassEntry, ClassFile)>
    {
      match InnerClassesOf(attributes)
      case None => lm
      case Some(entries) => PutAll(lm, KeptInner(entries, Ref(thisName), loader))
    }

    /** The loaded classes the `InnerClasses` attribute names as inner classes of this class. */
    function InnerMarked(loader: map<JType, ClassFile>): (marked: set<ClassFile>)
      ensures marked <= Loaded(loader)
    {
      match InnerClassesOf(attributes)
      case None => {}
      case Some(entries) => MarkedClassesLoaded(entries, Ref(thisName), loader); MarkedClasses(entries, Ref(thisName), loader)
    }

    /**
     * `loadInnerClasses`: every entry of the `InnerClasses` attribute that
     * names a loadable inner class of this class is marked by the staticness
     * rule and put under its type, in attribute order; entries that name no
     * class, fail to load or belong to another class are skipped.
     */
    method LoadInnerClasses(loader: map<JType, ClassFile>, removeSynthetics: bool)
      requires Valid()
      modifies this`innerClasses, Loaded(loader)`accessFlags, Loaded(loader)`hideSyntheticThis
      ensures Valid()
      ensures innerClasses == LoadedInnerClasses(old(innerClasses), loader)
      ensures forall c :: c in Loaded(loader) ==>
        MarkedState(c, old(c.accessFlags), old(c.hideSyntheticThis), Ref(thisName), removeSynthetics,
                    c in InnerMarked(loader))
      ensures forall c :: c in InnerMarked(loader) ==> Marked(c, Ref(thisName), removeSynthetics)
    {
      var attribute := InnerClassesOf(attributes);
      if attribute.None? {
        return;
      }
      innerClasses := LoadEntries(innerClasses, attribute.value, Ref(thisName), loader, removeSynthetics);
    }

    /**
     * `analyseInnerClassesPass1`: each inner class is analysed in the order
     * of the inner-class map; a failure propagates at once.
     */
    method AnalyseInnerClasses(analyseMethod: string -> bool, analyse: Method -> bool,
                               ghost universe: set<ClassFile>, ghost bound: nat)
      returns (r: Outcome<AnalysisError>)
      requires this in universe && Closed(universe) && |Unbegun(universe)| < bound
      modifies universe`begunAnalysis
      ensures forall c :: c in universe && old(c.begunAnalysis) ==> c.begunAnalysis
      ensures r.Pass? ==> forall k :: k in innerClasses.entries ==> innerClasses.entries[k].1.begunAnalysis
      ensures r.Pass? ==> forall c :: c in universe && !old(c.begunAnalysis) && c.begunAnalysis ==>
        !MethodFails(c.methods, analyseMethod, analyse)
      ensures r.Pass? ==> forall c :: c in universe && !old(c.begunAnalysis) && c.begunAnalysis ==>
        forall k :: k in c.innerClasses.entries ==> c.innerClasses.entries[k].1.begunAnalysis
      ensures r.Fail? ==> exists k :: k in innerClasses.entries && !old(innerClasses.entries[k].1.begunAnalysis)
      ensures r.Fail? ==> exists c ::
        c in universe && !old(c.begunAnalysis) && c.begunAnalysis && MethodFails(c.methods, analyseMethod, analyse)
      decreases bound, 0
    {
      var keys, entries := innerClasses.keys, innerClasses.entries;
      ghost var start := Unbegun(universe);
      ghost var done: set<ClassFile> := {};
      assert forall j :: 0 <= j < |keys| ==> keys[j] in entries;
      for i := 0 to |keys|
        invariant forall j :: 0 <= j < |keys| ==> keys[j] in entries
        invariant forall c :: c in universe && old(c.begunAnalysis) ==> c.begunAnalysis
        invariant Unbegun(universe) <= start
        invariant done <= universe && forall c :: c in done ==> c.begunAnalysis
        invariant forall j :: 0 <= j < i ==> entries[keys[j]].1 in done
        invariant forall c :: c in universe && !old(c.begunAnalysis) && c.begunAnalysis ==>
          !MethodFails(c.methods, analyseMethod, analyse)
        invariant forall c :: c in universe && !old(c.begunAnalysis) && c.begunAnalysis ==>
          forall k :: k in c.innerClasses.entries ==> c.innerClasses.entries[k].1.begunAnalysis
      {
        var inner := entries[keys[i]].1;
        FinishedOneMore(entries, keys, i, done);
        done := done + {inner};
        SubsetNoLarger(Unbegun(universe), start);
        ghost var current := Unbegun(universe);
        label Call:
        var innerResult, deeper := inner.AnalyseMid(true, analyseMethod, analyse, universe);
        assert Unbegun(universe) <= current;
        if innerResult.Fail? {
          assert !old@Call(inner.begunAnalysis);
          if !deeper {
            assert inner in universe && MethodFails(inner.methods, analyseMethod, analyse);
          }
          return innerResult;
        }
      }
      return Pass;
    }

    /**
     * `analyseMid`: nothing happens once analysis has begun. Otherwise the
     * class is marked as begun, its inner classes are analysed first when
     * asked (a failure there propagates at once), then every method the
     * state selects is analysed, in order, whether or not an earlier one
     * failed, and the pass fails once afterwards if any did.
     */
    method AnalyseMid(analyseInner: bool, analyseMethod: string -> bool, analyse: Method -> bool,
                      ghost universe: set<ClassFile>)
      returns (r: Outcome<AnalysisError>, ghost innerFailed: bool)
      requires this in universe && Closed(universe)
      modifies universe`begunAnalysis
      ensures begunAnalysis
      ensures forall c :: c in universe && old(c.begunAnalysis) ==> c.begunAnalysis
      ensures old(begunAnalysis) ==>
        r == Pass && !innerFailed && forall c :: c in universe ==> c.begunAnalysis == old(c.begunAnalysis)
      ensures innerFailed ==> analyseInner && r.Fail?
      ensures innerFailed ==>
        exists k :: k in innerClasses.entries && !old(innerClasses.entries[k].1.begunAnalysis)
      ensures innerFailed ==> exists c ::
        c in universe && !old(c.begunAnalysis) && c.begunAnalysis && MethodFails(c.methods, analyseMethod, analyse)
      ensures !old(begunAnalysis) && analyseInner && !innerFailed ==>
        forall k :: k in innerClasses.entries ==> innerClasses.entries[k].1.begunAnalysis
      ensures !old(begunAnalysis) && !innerFailed ==>
        (r.Fail? <==> MethodFails(methods, analyseMethod, analyse))
      ensures r.Pass? ==> forall c :: c in universe && !old(c.begunAnalysis) && c.begunAnalysis ==>
        !MethodFails(c.methods, analyseMethod, analyse)
      ensures analyseInner && r.Pass? ==> forall c :: c in universe && !old(c.begunAnalysis) && c.begunAnalysis ==>
        forall k :: k in c.innerClasses.entries ==> c.innerClasses.entries[k].1.begunAnalysis
      decreases |Unbegun(universe)|, 1
    {
      if begunAnalysis {
        return Pass, false;
      }
      ghost var before := Unbegun(universe);
      begunAnalysis := true;
      assert Unbegun(universe) == before - {this};
      ProperSubsetSmaller(Unbegun(universe), before);
      innerFailed := false;
      if analyseInner {
        var innerResult := AnalyseInnerClasses(analyseMethod, analyse, universe, |before|);
        if innerResult.Fail? {
          return innerResult, true;
        }
      }
      var failed := AnalyseMethods(methods, analyseMethod, analyse);
      if failed {
        return Fail(FailedToAnalyse), false;
      }
      return Pass, false;
    }

    /**
     * `getGenericTypeBinder`: for a generic class, the bindings of its
     * formals read off a generic instance of matching arity; none for a
     * class that is not generic or an instance of another arity.
     */
    function GetGenericTypeBinder(boundGeneric: JType): (b: Option<Bindings>)
      requires boundGeneric.Generic?
      ensures b.Some? <==>
        HasFormalTypeParameters(classSignature) && |boundGeneric.args| == |classSignature.formals.value|
      ensures b.Some? && Distinct(classSignature.formals.value) ==>
        var fs := classSignature.formals.value;
        forall i :: 0 <= i < |fs| ==> fs[i] in b.value && b.value[fs[i]] == boundGeneric.args[i]
    {
      var thisType := ThisGeneralType(classSignature, thisName);
      if !thisType.Generic? then None
      else
        var b := ExtractBindings(thisType, boundGeneric);
        if Distinct(classSignature.formals.value) then
          ExtractBindingsOfThisType(classSignature, thisName, boundGeneric);
          b
        else b
    }

    /**
     * `getBoundSuperClasses`: the bindings of this class's formals are read
     * off `boundGeneric` when both are generic, then the superclass is
     * walked under `route` and the interfaces under INTERFACE; a failure
     * stops the walk.
     */
    method GetBoundSuperClasses(boundGeneric: JType, collector: BoundSuperCollector, route: Route,
                                graph: map<string, ClassFile>, fuel: nat)
      returns (failure: Option<WalkFailure>)
      requires Consistent(graph)
      modifies collector
      ensures var w := SupersOf(Signatures(graph), classSignature, thisName, boundGeneric, route, fuel);
        collector.records == old(collector.records) + w.records && failure == w.failure
      decreases fuel, 2
    {
      var thisType := ThisGeneralType(classSignature, thisName);
      var binder := if thisType.Generic? && boundGeneric.Generic? then ExtractBindings(thisType, boundGeneric) else None;
      failure := GetBoundSuperClasses2(classSignature.superClass, binder, collector, route, graph, fuel);
      if failure.Some? {
        return;
      }
      ghost var mid := collector.records;
      failure := CollectInterfaces(classSignature.interfaces, binder, collector, graph, fuel);
      ghost var a := Supers2(Signatures(graph), classSignature.superClass, binder, route, fuel);
      ghost var b := Interfaces(Signatures(graph), classSignature.interfaces, binder, fuel);
      assert collector.records == old(collector.records) + (a.records + b.records);
    }

    /** The interfaces, in declared order, each walked under INTERFACE; a failure stops the walk. */
    method CollectInterfaces(ifs: seq<JType>, binder: Option<Bindings>, collector: BoundSuperCollector,
                             graph: map<string, ClassFile>, fuel: nat)
      returns (failure: Option<WalkFailure>)
      requires Consistent(graph)
      modifies collector
      ensures var w := Interfaces(Signatures(graph), ifs, binder, fuel);
        collector.records == old(collector.records) + w.records && failure == w.failure
      decreases fuel, 1
    {
      ghost var g := Signatures(graph);
      assert ifs[..0] == [];
      failure := None;
      for i := 0 to |ifs|
        invariant failure.None? && Interfaces(g, ifs[..i], binder, fuel).failure.None?
        invariant collector.records == old(collector.records) + Interfaces(g, ifs[..i], binder, fuel).records
      {
        InterfacesSnoc(g, ifs, binder, fuel, i);
        ghost var before := collector.records;
        failure := GetBoundSuperClasses2(Some(ifs[i]), binder, collector, INTERFACE, graph, fuel);
        ghost var step := Supers2(g, Some(ifs[i]), binder, INTERFACE, fuel);
        assert collector.records == old(collector.records) + (Interfaces(g, ifs[..i], binder, fuel).records + step.records);
        if failure.Some? {
          InterfacesSplit(g, ifs, binder, fuel, i + 1);
          return;
        }
      }
      assert ifs[..|ifs|] == ifs;
    }

    /**
     * `getBoundSuperClasses2`: a plain class is collected as it is, a
     * generic instance bound by `binder`, and the walk descends into that
     * class's file when it is known; anything else (a missing superclass, a
     * type variable) raises.
     */
    method GetBoundSuperClasses2(base: Option<JType>, binder: Option<Bindings>, collector: BoundSuperCollector,
                                 route: Route, graph: map<string, ClassFile>, fuel: nat)
      returns (failure: Option<WalkFailure>)
      requires Consistent(graph)
      modifies collector
      ensures var w := Supers2(Signatures(graph), base, binder, route, fuel);
        collector.records == old(collector.records) + w.records && failure == w.failure
      decreases fuel, 0
    {
      if base.None? || base.value.TVar? {
        return Some(NotGeneric);
      }
      var t := base.value;
      var bound := if t.Ref? then t else BoundInstance(t, binder);
      collector.Collect(bound, route);
      if t.name !in graph {
        return None;
      }
      if fuel == 0 {
        return Some(TooDeep);
      }
      ghost var mid := collector.records;
      failure := graph[t.name].GetBoundSuperClasses(bound, collector, route, graph, fuel - 1);
      ghost var rest := SupersOf(Signatures(graph), graph[t.name].classSignature, t.name, bound, route, fuel - 1);
      assert collector.records == old(collector.records) + ([Record(bound, route)] + rest.records);
    }

    /**
     * `generateBoundSuperClasses`: this class's own type under IDENTITY,
     * then the superclass walk under EXTENSION, then the interfaces under
     * INTERFACE, starting from the identity bindings of a generic class.
     */
    method GenerateBoundSuperClasses(graph: map<string, ClassFile>, fuel: nat)
      returns (r: Result<seq<Record>, WalkFailure>)
      requires Consistent(graph)
      ensures r == BoundSupersResult(BindingSupers(Signatures(graph), classSignature, thisName, fuel))
    {
      ghost var g := Signatures(graph);
      var collector := new BoundSuperCollector();
      var thisType := ThisGeneralType(classSignature, thisName);
      var binder := if thisType.Generic? then Some(IdentityBindings(classSignature.formals.value)) else None;
      collector.Collect(thisType, IDENTITY);
      var failure := GetBoundSuperClasses2(classSignature.superClass, binder, collector, EXTENSION, graph, fuel);
      ghost var a := Supers2(g, classSignature.superClass, binder, EXTENSION, fuel);
      ghost var b := Interfaces(g, classSignature.interfaces, binder, fuel);
      if failure.Some? {
        return Err(failure.value);
      }
      failure := CollectInterfaces(classSignature.interfaces, binder, collector, graph, fuel);
      if failure.Some? {
        return Err(failure.value);
      }
      assert collector.records == [Record(thisType, IDENTITY)] + (a.records + b.records);
      return Ok(collector.records);
    }

    /**
     * `getBindingSupers`: the memoized walk. A cached result is returned
     * as it is; otherwise the walk is generated and, when it succeeds,
     * cached.
     */
    method GetBindingSupers(graph: map<string, ClassFile>, fuel: nat) returns (r: Result<seq<Record>, WalkFailure>)
      requires Consistent(graph)
      modifies this`boundSuperClasses
      ensures old(boundSuperClasses).Some? ==>
        r == Ok(old(boundSuperClasses).value) && boundSuperClasses == old(boundSuperClasses)
      ensures old(boundSuperClasses).None? ==>
        && r == BoundSupersResult(BindingSupers(Signatures(graph), classSignature, thisName, fuel))
        && boundSuperClasses == (if r.Ok? then Some(r.value) else None)
    {
      if boundSuperClasses.None? {
        var generated := GenerateBoundSuperClasses(graph, fuel);
        if generated.Err? {
          return generated;
        }
        boundSuperClasses := Some(generated.value);
      }
      return Ok(boundSuperClasses.value);
    }
  }
}
