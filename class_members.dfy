/**
 * Members of a class file as values, and the specifications the class file's
 * member lookups are proved against: selection by name, the constructors,
 * the name-indexed maps, the overload compatibility rule, strict-flag
 * removal and the effective class-file version.
 */
module ClassMembers {
  import opened Wrappers
  import opened JavaTypes
  import opened AccessFlagMethods
  import opened ClassFileLayout

  /**
   * A method prototype: its name, argument types, whether it is an instance
   * method and whether it is variadic. `text` stands for its `toString`, the
   * key the overload set de-duplicates by.
   */
  datatype MethodPrototype = MethodPrototype(
    name: string,
    args: seq<JType>,
    isInstance: bool,
    isVarArgs: bool,
    text: string)

  /**
   * A decoded `method_info`: its name, prototype and access flags, whether
   * it is a constructor and whether it carries a `Signature` attribute.
   */
  datatype Method = Method(
    name: string,
    prototype: MethodPrototype,
    accessFlags: set<AccessFlagMethod>,
    isConstructor: bool,
    hasSignature: bool)

  /** A decoded `field_info`. */
  datatype Field = Field(name: string, fieldType: JType)

  /** The methods called `name`, in declaration order. */
  function MethodsNamed(ms: seq<Method>, name: string): (r: seq<Method>)
    ensures |r| <= |ms|
    ensures forall m :: m in r <==> m in ms && m.name == name
    ensures r == [] <==> forall m :: m in ms ==> m.name != name
    decreases |ms|
  {
    if ms == [] then []
    else
      var n := |ms| - 1;
      MethodsNamed(ms[..n], name) + (if ms[n].name == name then [ms[n]] else [])
  }

  /** The constructors, in declaration order. */
  function Constructors(ms: seq<Method>): (r: seq<Method>)
    ensures |r| <= |ms|
    ensures forall m :: m in r <==> m in ms && m.isConstructor
    decreases |ms|
  {
    if ms == [] then []
    else
      var n := |ms| - 1;
      Constructors(ms[..n]) + (if ms[n].isConstructor then [ms[n]] else [])
  }

  /** Dropping the last element of a concatenation drops it from the second part. */
  lemma AppendDropLast(a: seq<Method>, b: seq<Method>)
    requires b != []
    ensures (a + b)[..|a + b| - 1] == a + b[..|b| - 1]
    ensures (a + b)[|a + b| - 1] == b[|b| - 1]
  {
  }

  /**
   * Filtering by name keeps order and multiplicity: the methods of a
   * concatenation are those of each part, in turn.
   */
  lemma {:induction false} MethodsNamedAppend(a: seq<Method>, b: seq<Method>, name: string)
    ensures MethodsNamed(a + b, name) == MethodsNamed(a, name) + MethodsNamed(b, name)
    decreases |b|
  {
    if b == [] {
      assert a + b == a;
    } else {
      var n := |b| - 1;
      var last := if b[n].name == name then [b[n]] else [];
      calc {
        MethodsNamed(a + b, name);
        { AppendDropLast(a, b); }
        MethodsNamed(a + b[..n], name) + last;
        { MethodsNamedAppend(a, b[..n], name); }
        (MethodsNamed(a, name) + MethodsNamed(b[..n], name)) + last;
        MethodsNamed(a, name) + (MethodsNamed(b[..n], name) + last);
        MethodsNamed(a, name) + MethodsNamed(b, name);
      }
    }
  }

  /**
   * Selecting the constructors keeps order and multiplicity: the
   * constructors of a concatenation are those of each part, in turn.
   */
  lemma {:induction false} ConstructorsAppend(a: seq<Method>, b: seq<Method>)
    ensures Constructors(a + b) == Constructors(a) + Constructors(b)
    decreases |b|
  {
    if b == [] {
      assert a + b == a;
    } else {
      var n := |b| - 1;
      var last := if b[n].isConstructor then [b[n]] else [];
      calc {
        Constructors(a + b);
        { AppendDropLast(a, b); }
        Constructors(a + b[..n]) + last;
        { ConstructorsAppend(a, b[..n]); }
        (Constructors(a) + Constructors(b[..n])) + last;
        Constructors(a) + (Constructors(b[..n]) + last);
        Constructors(a) + Constructors(b);
      }
    }
  }

  /** The lazily built `methodsByName`: the methods appended, in order, to the list of their name. */
  function MethodsByName(ms: seq<Method>): map<string, seq<Method>>
    decreases |ms|
  {
    if ms == [] then map[]
    else
      var n := |ms| - 1;
      var pre := MethodsByName(ms[..n]);
      var m := ms[n];
      pre[m.name := (if m.name in pre then pre[m.name] else []) + [m]]
  }

  /**
   * A name is a key exactly when some method has it, and it maps to the
   * methods of that name in declaration order.
   */
  lemma {:induction false} MethodsByNameGroups(ms: seq<Method>, k: string)
    ensures k in MethodsByName(ms) <==> exists m :: m in ms && m.name == k
    ensures k in MethodsByName(ms) ==> MethodsByName(ms)[k] == MethodsNamed(ms, k)
    decreases |ms|
  {
    if ms != [] {
      var n := |ms| - 1;
      var pre, last := ms[..n], ms[n];
      MethodsByNameGroups(pre, k);
      assert ms == pre + [last];
      assert MethodsNamed(ms, k) == MethodsNamed(pre, k) + (if last.name == k then [last] else []);
      if last.name == k {
        assert last in ms;
        if k !in MethodsByName(pre) {
          assert MethodsNamed(pre, k) == [];
        }
      } else {
        assert MethodsNamed(ms, k) == MethodsNamed(pre, k);
        if k in MethodsByName(pre) {
          var m :| m in pre && m.name == k;
          assert m in ms;
        } else {
          assert forall m :: m in ms && m.name == k ==> m in pre;
        }
      }
    }
  }

  /** The lazily built `fieldsByName`: each field is put under its name, a later one replacing an earlier one. */
  function FieldsByName(fs: seq<Field>): map<string, Field>
    decreases |fs|
  {
    if fs == [] then map[]
    else
      var n := |fs| - 1;
      FieldsByName(fs[..n])[fs[n].name := fs[n]]
  }

  /** A name is a key exactly when some field has it, and it maps to the last field of that name. */
  lemma {:induction false} FieldsByNameLastWins(fs: seq<Field>, k: string)
    ensures k in FieldsByName(fs) <==> exists i :: 0 <= i < |fs| && fs[i].name == k
    ensures k in FieldsByName(fs) ==>
      exists i :: 0 <= i < |fs| && fs[i] == FieldsByName(fs)[k] && fs[i].name == k
        && forall j :: i < j < |fs| ==> fs[j].name != k
    decreases |fs|
  {
    if fs != [] {
      var n := |fs| - 1;
      FieldsByNameLastWins(fs[..n], k);
      if fs[n].name != k && k in FieldsByName(fs) {
        var i :| 0 <= i < n && fs[..n][i] == FieldsByName(fs[..n])[k] && fs[..n][i].name == k
          && forall j :: i < j < n ==> fs[..n][j].name != k;
        assert fs[i] == FieldsByName(fs)[k];
      }
    }
  }

  /**
   * The overload filter: a candidate of the same name must agree on being
   * an instance method. A variadic query accepts any variadic candidate or
   * one with at least as many arguments; otherwise a variadic candidate
   * needs at most as many arguments, and any other exactly as many.
   */
  predicate OverloadCompatible(query: MethodPrototype, other: MethodPrototype) {
    if other.isInstance != query.isInstance then false
    else if query.isVarArgs then other.isVarArgs || |other.args| >= |query.args|
    else if other.isVarArgs then |other.args| <= |query.args|
    else |other.args| == |query.args|
  }

  /** The methods the overload set draws its prototypes from. */
  predicate OverloadCandidate(query: MethodPrototype, m: Method) {
    m.name == query.name && OverloadCompatible(query, m.prototype)
  }

  /**
   * The constructor's strictness rule: when the class is strict every
   * method loses `ACC_STRICT` and keeps everything else.
   */
  function StripStrict(ms: seq<Method>): (r: seq<Method>)
    ensures |r| == |ms|
    ensures forall i :: 0 <= i < |ms| ==>
      && ACC_STRICT !in r[i].accessFlags
      && (forall f :: f != ACC_STRICT ==> (f in r[i].accessFlags <==> f in ms[i].accessFlags))
      && r[i].(accessFlags := ms[i].accessFlags) == ms[i]
  {
    seq(|ms|, i requires 0 <= i < |ms| => ms[i].(accessFlags := ms[i].accessFlags - {ACC_STRICT}))
  }

  /** Whether some method carries a `Signature` attribute (the search loop, which stops at the first). */
  function SomeMethodSigned(ms: seq<Method>): (b: bool)
    ensures b <==> exists i :: 0 <= i < |ms| && ms[i].hasSignature
    decreases |ms|
  {
    if ms == [] then false else ms[0].hasSignature || SomeMethodSigned(ms[1..])
  }

  /** A decompiler comment attached to the class. */
  datatype Comment = AssumingJava6(declared: ClassFileVersion)

  /**
   * The version heuristic: a file declaring a version before Java 6 that
   * uses signatures (on the class or on any method) is taken to be Java 6,
   * and one comment saying so is added; any other file keeps its version and
   * gains no comment.
   */
  function EffectiveVersion(declared: ClassFileVersion, classSigned: bool, ms: seq<Method>)
    : (r: (ClassFileVersion, seq<Comment>))
    ensures var signed := classSigned || exists i :: 0 <= i < |ms| && ms[i].hasSignature;
      && (Before(declared, Java6) && signed ==> r == (Java6, [AssumingJava6(declared)]))
      && (!(Before(declared, Java6) && signed) ==> r == (declared, []))
  {
    if Before(declared, Java6) && (classSigned || SomeMethodSigned(ms)) then (Java6, [AssumingJava6(declared)])
    else (declared, [])
  }

  /** `p` is the prototype of an overload candidate among `ms`. */
  predicate CandidatePrototype(ms: seq<Method>, query: MethodPrototype, p: MethodPrototype) {
    exists m :: m in ms && OverloadCandidate(query, m) && m.prototype == p
  }

  /** The prototypes of the overload candidates, in declaration order (the two filters and the map). */
  function OverloadPrototypes(ms: seq<Method>, query: MethodPrototype): (ps: seq<MethodPrototype>)
    ensures |ps| <= |ms|
    ensures forall p :: p in ps <==> CandidatePrototype(ms, query, p)
    decreases |ms|
  {
    if ms == [] then []
    else
      var n := |ms| - 1;
      assert ms == ms[..n] + [ms[n]];
      OverloadPrototypes(ms[..n], query) + (if OverloadCandidate(query, ms[n]) then [ms[n].prototype] else [])
  }

  /** The `toString`s of some prototypes. */
  function TextsOf(ps: seq<MethodPrototype>): set<string> {
    set p | p in ps :: p.text
  }

  /** The de-duplication loop: each prototype is kept unless one with the same `toString` was kept before it. */
  function KeepFirstByText(ps: seq<MethodPrototype>): seq<MethodPrototype>
    decreases |ps|
  {
    if ps == [] then []
    else
      var n := |ps| - 1;
      var kept := KeepFirstByText(ps[..n]);
      if ps[n].text in TextsOf(kept) then kept else kept + [ps[n]]
  }

  lemma TextsOfSnoc(ps: seq<MethodPrototype>, p: MethodPrototype)
    ensures TextsOf(ps + [p]) == TextsOf(ps) + {p.text}
  {
    assert forall q :: q in ps + [p] <==> q in ps || q == p;
  }

  /** One more prototype is kept exactly when its `toString` is new. */
  lemma KeepFirstByTextSnoc(ps: seq<MethodPrototype>, n: nat)
    requires n < |ps|
    ensures KeepFirstByText(ps[..n + 1])
      == if ps[n].text in TextsOf(KeepFirstByText(ps[..n])) then KeepFirstByText(ps[..n]) else KeepFirstByText(ps[..n]) + [ps[n]]
  {
    assert ps[..n + 1][..n] == ps[..n];
  }

  /**
   * De-duplication keeps no two prototypes with the same `toString`, keeps
   * only given prototypes and loses no `toString`.
   */
  lemma {:induction false} KeepFirstByTextDistinct(ps: seq<MethodPrototype>)
    ensures var r := KeepFirstByText(ps);
      && (forall i, j :: 0 <= i < j < |r| ==> r[i].text != r[j].text)
      && (forall p :: p in r ==> p in ps)
      && TextsOf(r) == TextsOf(ps)
    decreases |ps|
  {
    if ps != [] {
      var n := |ps| - 1;
      var pre := ps[..n];
      KeepFirstByTextDistinct(pre);
      assert ps == pre + [ps[n]];
      assert TextsOf(ps) == TextsOf(pre) + {ps[n].text};
    }
  }

  /** The first prototype of each `toString` is kept; in particular the first of all stays first. */
  lemma {:induction false} KeepFirstByTextKeepsFirst(ps: seq<MethodPrototype>)
    ensures var r := KeepFirstByText(ps);
      && (forall i :: 0 <= i < |ps| && (forall j :: 0 <= j < i ==> ps[j].text != ps[i].text) ==> ps[i] in r)
      && (ps != [] ==> r != [] && r[0] == ps[0])
    decreases |ps|
  {
    if ps != [] {
      var n := |ps| - 1;
      var pre := ps[..n];
      KeepFirstByTextKeepsFirst(pre);
      KeepFirstByTextDistinct(pre);
      var r := KeepFirstByText(ps);
      forall i | 0 <= i < |ps| && (forall j :: 0 <= j < i ==> ps[j].text != ps[i].text)
        ensures ps[i] in r
      {
        if i < n {
          assert pre[i] == ps[i];
        } else {
          assert ps[n].text !in TextsOf(pre);
        }
      }
      if n > 0 {
        assert pre[0] == ps[0];
      }
    }
  }

  /**
   * The overload set starts with the query, has no two entries with the same
   * `toString`, draws every later entry from a compatible method of the
   * query's name, and misses no such method's `toString`.
   */
  lemma OverloadSetSpec(ms: seq<Method>, query: MethodPrototype, out: seq<MethodPrototype>)
    requires out == KeepFirstByText([query] + OverloadPrototypes(ms, query))
    ensures
      && out != [] && out[0] == query
      && (forall i, j :: 0 <= i < j < |out| ==> out[i].text != out[j].text)
      && (forall i :: 1 <= i < |out| ==> CandidatePrototype(ms, query, out[i]))
      && (forall m :: m in ms && OverloadCandidate(query, m) ==> m.prototype.text in TextsOf(out))
  {
    var prototypes := OverloadPrototypes(ms, query);
    var ps := [query] + prototypes;
    KeepFirstByTextDistinct(ps);
    KeepFirstByTextKeepsFirst(ps);
    forall i | 1 <= i < |out|
      ensures CandidatePrototype(ms, query, out[i])
    {
      assert out[i] in ps;
      assert out[i].text != out[0].text;
      assert out[i] in prototypes;
    }
    forall m | m in ms && OverloadCandidate(query, m)
      ensures m.prototype.text in TextsOf(out)
    {
      assert CandidatePrototype(ms, query, m.prototype);
      assert m.prototype in ps;
    }
  }

  /**
   * The method pass of `analyseMid`: every method the state selects is
   * analysed, in order, whether or not an earlier one failed; `failed`
   * says whether any selected method failed.
   */
  method AnalyseMethods(methods: seq<Method>, analyseMethod: string -> bool, analyse: Method -> bool)
    returns (failed: bool)
    ensures failed <==> exists m :: m in methods && analyseMethod(m.name) && !analyse(m)
  {
    failed := false;
    for i := 0 to |methods|
      invariant failed <==> exists j :: 0 <= j < i && analyseMethod(methods[j].name) && !analyse(methods[j])
    {
      if analyseMethod(methods[i].name) {
        if !analyse(methods[i]) {
          failed := true;
        }
      }
    }
  }
}
