/**
 * The slice of the Java type model the class-file code relies on: plain
 * class references, generic instances, type variables, class signatures
 * (section 4.7.9 of The Java Virtual Machine Specification) and the positional
 * binding of a generic declaration's type variables to an instance's
 * arguments.
 */
module JavaTypes {
  import opened Wrappers

  /**
   * A reference type: a plain class (`JavaRefTypeInstance`), a generic
   * instance (`JavaGenericRefTypeInstance`) whose arguments may be bound or
   * unbound, or a type variable.
   */
  datatype JType =
    | Ref(name: string)
    | Generic(name: string, args: seq<JType>)
    | TVar(v: string)

  /** The textual form of a type: `Name`, `Name<A, B>` or the variable. */
  function TypeText(t: JType): string {
    match t
    case Ref(n) => n
    case TVar(v) => v
    case Generic(n, args) => n + "<" + ArgsText(args) + ">"
  }

  function ArgsText(args: seq<JType>): string
    decreases args
  {
    if args == [] then ""
    else if |args| == 1 then TypeText(args[0])
    else TypeText(args[0]) + ", " + ArgsText(args[1..])
  }

  /** A substitution from type-variable names to types (`GenericTypeBinder`). */
  type Bindings = map<string, JType>

  /** Replaces every bound type variable inside `t`; unbound variables stay. */
  function Subst(t: JType, b: Bindings): JType
    decreases t
  {
    match t
    case Ref(_) => t
    case TVar(v) => if v in b then b[v] else t
    case Generic(n, args) => Generic(n, seq(|args|, i requires 0 <= i < |args| => Subst(args[i], b)))
  }

  /**
   * `getBoundInstance(binder)` of a generic instance: with no binder the
   * instance is returned as it is.
   */
  function BoundInstance(t: JType, binder: Option<Bindings>): (r: JType)
    ensures t.Generic? ==> r.Generic? && r.name == t.name && |r.args| == |t.args|
    ensures binder.None? ==> r == t
  {
    match binder
    case None => t
    case Some(b) => Subst(t, b)
  }

  /** Every formal type variable bound to itself (`buildIdentityBindings`). */
  function IdentityBindings(formals: seq<string>): (b: Bindings)
    ensures forall v :: v in b <==> v in formals
    ensures forall v :: v in b ==> b[v] == TVar(v)
  {
    map v | v in formals :: TVar(v)
  }

  /** The identity bindings leave every type unchanged. */
  lemma {:induction false} SubstIdentity(t: JType, formals: seq<string>)
    ensures Subst(t, IdentityBindings(formals)) == t
    decreases t
  {
    match t
    case Ref(_) =>
    case TVar(v) =>
    case Generic(n, args) =>
      var b := IdentityBindings(formals);
      var args' := seq(|args|, i requires 0 <= i < |args| => Subst(args[i], b));
      forall i | 0 <= i < |args| ensures args'[i] == args[i] {
        SubstIdentity(args[i], formals);
      }
      assert args' == args;
  }

  /**
   * `extractBindings(generic, bound)`: positional unification of a generic
   * declaration's arguments (its type variables) with a bound instance's
   * arguments. An arity mismatch yields no binding (null), not an error.
   */
  function ExtractBindings(generic: JType, bound: JType): (r: Option<Bindings>)
    requires generic.Generic? && bound.Generic?
    ensures r.Some? <==> |generic.args| == |bound.args|
  {
    if |generic.args| == |bound.args| then Some(ZipBindings(generic.args, bound.args)) else None
  }

  /** Binds each variable among `formals` to the argument at the same position; a later position wins. */
  function ZipBindings(formals: seq<JType>, actuals: seq<JType>): Bindings
    requires |formals| == |actuals|
    decreases |formals|
  {
    if formals == [] then map[]
    else
      var n := |formals| - 1;
      var rest := ZipBindings(formals[..n], actuals[..n]);
      match formals[n]
      case TVar(v) => rest[v := actuals[n]]
      case _ => rest
  }

  /** The type variables named by `names`, in order. */
  function TVars(names: seq<string>): (vs: seq<JType>)
    ensures |vs| == |names|
    ensures forall i :: 0 <= i < |names| ==> vs[i] == TVar(names[i])
  {
    seq(|names|, i requires 0 <= i < |names| => TVar(names[i]))
  }

  predicate Distinct(names: seq<string>) {
    forall i, j :: 0 <= i < j < |names| ==> names[i] != names[j]
  }

  /** The last binding of `TVars(names)` extends the bindings of the prefix. */
  lemma ZipBindingsSnoc(names: seq<string>, actuals: seq<JType>)
    requires |names| == |actuals| && names != []
    ensures var n := |names| - 1;
      ZipBindings(TVars(names), actuals) == ZipBindings(TVars(names[..n]), actuals[..n])[names[n] := actuals[n]]
  {
    var n := |names| - 1;
    assert TVars(names)[..n] == TVars(names[..n]);
  }

  /** Binding the type variables `names` binds exactly those names. */
  lemma {:induction false} ZipBindingsKeys(names: seq<string>, actuals: seq<JType>)
    requires |names| == |actuals|
    ensures ZipBindings(TVars(names), actuals).Keys == set x | x in names
    decreases |names|
  {
    if names != [] {
      var n := |names| - 1;
      ZipBindingsSnoc(names, actuals);
      ZipBindingsKeys(names[..n], actuals[..n]);
      assert names == names[..n] + [names[n]];
      assert (set x | x in names) == (set x | x in names[..n]) + {names[n]};
    }
  }

  /**
   * Binding pairwise distinct type variables maps each to the argument at its
   * position.
   */
  lemma {:induction false} ZipBindingsValues(names: seq<string>, actuals: seq<JType>)
    requires |names| == |actuals| && Distinct(names)
    ensures forall i :: 0 <= i < |names| ==>
      names[i] in ZipBindings(TVars(names), actuals) && ZipBindings(TVars(names), actuals)[names[i]] == actuals[i]
    decreases |names|
  {
    if names != [] {
      var n := |names| - 1;
      var pre := names[..n];
      ZipBindingsSnoc(names, actuals);
      ZipBindingsValues(pre, actuals[..n]);
      forall i | 0 <= i < n
        ensures names[i] in ZipBindings(TVars(names), actuals)
        ensures ZipBindings(TVars(names), actuals)[names[i]] == actuals[i]
      {
        assert pre[i] == names[i] && names[i] != names[n];
      }
    }
  }

  /** A list without repeats has as many distinct elements as positions. */
  lemma {:induction false} DistinctCardinality(names: seq<string>)
    requires Distinct(names)
    ensures |set x | x in names| == |names|
    decreases |names|
  {
    if names != [] {
      var n := |names| - 1;
      var pre := names[..n];
      DistinctCardinality(pre);
      assert names == pre + [names[n]];
      assert (set x | x in names) == (set x | x in pre) + {names[n]};
      assert names[n] !in (set x | x in pre);
    }
  }

  /**
   * A class signature: the optional formal type parameters (null when the
   * signature was synthesized), the possibly generic superclass (absent for a
   * class with no superclass) and the interfaces in declared order.
   */
  datatype ClassSignature = ClassSignature(
    formals: Option<seq<string>>,
    superClass: Option<JType>,
    interfaces: seq<JType>)

  /** `hasFormalTypeParameters`: formals present and non-empty. */
  predicate HasFormalTypeParameters(sig: ClassSignature) {
    sig.formals.Some? && sig.formals.value != []
  }

  /**
   * `getThisGeneralTypeClass`: the class's own type, unbound. A class with
   * formal parameters is the generic instance over its own type variables;
   * any other class is the plain reference.
   */
  function ThisGeneralType(sig: ClassSignature, name: string): (t: JType)
    ensures !t.TVar? && t.name == name
    ensures t.Generic? <==> HasFormalTypeParameters(sig)
    ensures t.Generic? ==> t.args == TVars(sig.formals.value)
  {
    if HasFormalTypeParameters(sig) then Generic(name, TVars(sig.formals.value))
    else Ref(name)
  }

  /**
   * Unifying a generic class's own type with an instance of matching arity
   * binds each formal, and nothing else, to the argument at its position; a
   * mismatched arity binds nothing.
   */
  lemma ExtractBindingsOfThisType(sig: ClassSignature, name: string, bound: JType)
    requires HasFormalTypeParameters(sig) && Distinct(sig.formals.value) && bound.Generic?
    ensures var fs := sig.formals.value;
      var r := ExtractBindings(ThisGeneralType(sig, name), bound);
      && (r.Some? <==> |bound.args| == |fs|)
      && (r.Some? ==> |r.value| == |fs|)
      && (r.Some? ==> forall i :: 0 <= i < |fs| ==> fs[i] in r.value && r.value[fs[i]] == bound.args[i])
  {
    var fs := sig.formals.value;
    if |bound.args| == |fs| {
      ZipBindingsKeys(fs, bound.args);
      ZipBindingsValues(fs, bound.args);
      DistinctCardinality(fs);
      var m := ZipBindings(TVars(fs), bound.args);
      assert |m| == |m.Keys|;
    }
  }
}
