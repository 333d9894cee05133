/**
 * The bound-supertype walk of a class file: starting from the class's own
 * type, every supertype is recorded with the route it was reached by, bound
 * as far as the type-variable bindings known at that point allow, and the
 * walk descends pre-order into every supertype whose class file is known.
 *
 * The known class files form a graph from class name to class signature.
 * The walk carries a fuel bound: the code assumes the supertype relation is
 * acyclic and does not check it, so a walk that runs out of fuel reports
 * `TooDeep` where the code would not terminate.
 */
module BoundSupers {
  import opened Wrappers
  import opened JavaTypes

  /** How a supertype was reached (`BindingSuperContainer.Route`). */
  datatype Route = IDENTITY | EXTENSION | INTERFACE

  /** One collected supertype and the route it was reached by. */
  datatype Record = Record(bound: JType, route: Route)

  /**
   * Why a walk stops: a supertype that is neither a plain class nor a
   * generic instance (a missing superclass or a type variable), or the fuel
   * ran out.
   */
  datatype WalkFailure = NotGeneric | TooDeep

  /** The records collected, in order, and the failure that ended the walk, if any. */
  datatype Walk = Walk(records: seq<Record>, failure: Option<WalkFailure>)

  /** Known class files: class name to class signature. */
  type Graph = map<string, ClassSignature>

  /** `a`, then `b` unless `a` failed. */
  function Then(a: Walk, b: Walk): Walk {
    if a.failure.Some? then a else Walk(a.records + b.records, b.failure)
  }

  /**
   * `getBoundSuperClasses`: the bindings of this class's type variables are
   * read off `boundGeneric` when both are generic, and its superclass (under
   * the caller's route) and its interfaces (under INTERFACE) are walked.
   */
  function SupersOf(g: Graph, sig: ClassSignature, name: string, boundGeneric: JType, route: Route, fuel: nat)
    : Walk
    decreases fuel, 2, 0
  {
    var thisType := ThisGeneralType(sig, name);
    var binder := if thisType.Generic? && boundGeneric.Generic? then ExtractBindings(thisType, boundGeneric) else None;
    Then(Supers2(g, sig.superClass, binder, route, fuel), Interfaces(g, sig.interfaces, binder, fuel))
  }

  /**
   * `getBoundSuperClasses2`: a plain class is recorded as it is, a generic
   * instance bound by `binder`; either way the walk then descends into the
   * class file of that class if it is known. Anything else fails.
   */
  function Supers2(g: Graph, base: Option<JType>, binder: Option<Bindings>, route: Route, fuel: nat): Walk
    decreases fuel, 0, 0
  {
    match base
    case Some(t) =>
      if t.TVar? then Walk([], Some(NotGeneric))
      else
        var bound := if t.Ref? then t else BoundInstance(t, binder);
        var here := Walk([Record(bound, route)], None);
        if t.name !in g then here
        else if fuel == 0 then Walk(here.records, Some(TooDeep))
        else Then(here, SupersOf(g, g[t.name], t.name, bound, route, fuel - 1))
    case None => Walk([], Some(NotGeneric))
  }

  /** The interfaces, in declared order, each walked under INTERFACE. */
  function Interfaces(g: Graph, ifs: seq<JType>, binder: Option<Bindings>, fuel: nat): Walk
    decreases fuel, 1, |ifs|
  {
    if ifs == [] then Walk([], None)
    else Then(Supers2(g, Some(ifs[0]), binder, INTERFACE, fuel), Interfaces(g, ifs[1..], binder, fuel))
  }

  /** The binder `generateBoundSuperClasses` starts from: every formal bound to itself. */
  function OwnBinder(sig: ClassSignature, name: string): (b: Option<Bindings>)
    ensures b.Some? <==> HasFormalTypeParameters(sig)
  {
    if ThisGeneralType(sig, name).Generic? then Some(IdentityBindings(sig.formals.value)) else None
  }

  /**
   * `generateBoundSuperClasses`: this class's own type under IDENTITY, then
   * the superclass walk under EXTENSION, then each interface's walk under
   * INTERFACE.
   */
  function BindingSupers(g: Graph, sig: ClassSignature, name: string, fuel: nat): Walk {
    var binder := OwnBinder(sig, name);
    Then(Walk([Record(ThisGeneralType(sig, name), IDENTITY)], None),
         Then(Supers2(g, sig.superClass, binder, EXTENSION, fuel), Interfaces(g, sig.interfaces, binder, fuel)))
  }

  /** Every record of the walk has one of the routes `rs`. */
  predicate RoutedAs(w: Walk, rs: set<Route>) {
    forall i :: 0 <= i < |w.records| ==> w.records[i].route in rs
  }

  lemma ThenRoutedAs(a: Walk, b: Walk, rs: set<Route>)
    requires RoutedAs(a, rs) && RoutedAs(b, rs)
    ensures RoutedAs(Then(a, b), rs)
  {
    if a.failure.None? {
      var c := Then(a, b);
      forall i | 0 <= i < |c.records| ensures c.records[i].route in rs {
        if i >= |a.records| {
          assert c.records[i] == b.records[i - |a.records|];
        }
      }
    }
  }

  /**
   * A superclass walk records everything under the route it was started
   * with, except what is reached through an interface, which is under
   * INTERFACE.
   */
  lemma {:induction false} Supers2Routed(g: Graph, base: Option<JType>, binder: Option<Bindings>, route: Route, fuel: nat)
    ensures RoutedAs(Supers2(g, base, binder, route, fuel), {route, INTERFACE})
    decreases fuel, 0, 0
  {
    if base.Some? && !base.value.TVar? && base.value.name in g && fuel > 0 {
      var t := base.value;
      var bound := if t.Ref? then t else BoundInstance(t, binder);
      SupersOfRouted(g, g[t.name], t.name, bound, route, fuel - 1);
      ThenRoutedAs(Walk([Record(bound, route)], None), SupersOf(g, g[t.name], t.name, bound, route, fuel - 1),
                   {route, INTERFACE});
    }
  }

  lemma {:induction false} SupersOfRouted(g: Graph, sig: ClassSignature, name: string, boundGeneric: JType,
                                          route: Route, fuel: nat)
    ensures RoutedAs(SupersOf(g, sig, name, boundGeneric, route, fuel), {route, INTERFACE})
    decreases fuel, 2, 0
  {
    var thisType := ThisGeneralType(sig, name);
    var binder := if thisType.Generic? && boundGeneric.Generic? then ExtractBindings(thisType, boundGeneric) else None;
    Supers2Routed(g, sig.superClass, binder, route, fuel);
    InterfacesRouted(g, sig.interfaces, binder, fuel);
    var i := Interfaces(g, sig.interfaces, binder, fuel);
    assert RoutedAs(i, {route, INTERFACE});
    ThenRoutedAs(Supers2(g, sig.superClass, binder, route, fuel), i, {route, INTERFACE});
  }

  /** Everything reached through an interface is recorded under INTERFACE. */
  lemma {:induction false} InterfacesRouted(g: Graph, ifs: seq<JType>, binder: Option<Bindings>, fuel: nat)
    ensures RoutedAs(Interfaces(g, ifs, binder, fuel), {INTERFACE})
    decreases fuel, 1, |ifs|
  {
    if ifs != [] {
      Supers2Routed(g, Some(ifs[0]), binder, INTERFACE, fuel);
      InterfacesRouted(g, ifs[1..], binder, fuel);
      assert {INTERFACE, INTERFACE} == {INTERFACE};
      ThenRoutedAs(Supers2(g, Some(ifs[0]), binder, INTERFACE, fuel), Interfaces(g, ifs[1..], binder, fuel), {INTERFACE});
    }
  }

  /**
   * The collected supertypes start with this class's own type under
   * IDENTITY, and no other record is under IDENTITY; when there is a
   * superclass it comes next, under EXTENSION and unchanged by the identity
   * bindings; and the interface walks contribute only INTERFACE records.
   */
  lemma BindingSupersShape(g: Graph, sig: ClassSignature, name: string, fuel: nat)
    ensures var w := BindingSupers(g, sig, name, fuel);
      && |w.records| >= 1
      && w.records[0] == Record(ThisGeneralType(sig, name), IDENTITY)
      && (forall i :: 1 <= i < |w.records| ==> w.records[i].route != IDENTITY)
      && (sig.superClass.Some? && !sig.superClass.value.TVar? ==>
            |w.records| >= 2 && w.records[1] == Record(sig.superClass.value, EXTENSION))
  {
    var binder := OwnBinder(sig, name);
    var sup := Supers2(g, sig.superClass, binder, EXTENSION, fuel);
    var ifs := Interfaces(g, sig.interfaces, binder, fuel);
    Supers2Routed(g, sig.superClass, binder, EXTENSION, fuel);
    InterfacesRouted(g, sig.interfaces, binder, fuel);
    var rest := Then(sup, ifs);
    ThenRoutedAs(sup, ifs, {EXTENSION, INTERFACE});
    var w := BindingSupers(g, sig, name, fuel);
    assert w.records == [Record(ThisGeneralType(sig, name), IDENTITY)] + rest.records;
    forall i | 1 <= i < |w.records| ensures w.records[i].route != IDENTITY {
      assert w.records[i] == rest.records[i - 1];
    }
    if sig.superClass.Some? && !sig.superClass.value.TVar? {
      var t := sig.superClass.value;
      if t.Generic? && binder.Some? {
        SubstIdentity(t, sig.formals.value);
      }
      assert sup.records[0] == Record(t, EXTENSION);
    }
  }

  /** No record reached otherwise follows a record reached through an interface. */
  predicate InterfacesLast(w: Walk) {
    forall i, j :: 0 <= i < j < |w.records| && w.records[i].route == INTERFACE ==> w.records[j].route == INTERFACE
  }

  /**
   * Sequencing keeps the interface records last when the second walk is all
   * interface records or the first has none.
   */
  lemma ThenInterfacesLast(a: Walk, b: Walk)
    requires InterfacesLast(a) && InterfacesLast(b)
    requires RoutedAs(b, {INTERFACE}) || RoutedAs(a, {IDENTITY, EXTENSION})
    ensures InterfacesLast(Then(a, b))
  {
    if a.failure.None? {
      var c := Then(a, b);
      forall i, j | 0 <= i < j < |c.records| && c.records[i].route == INTERFACE
        ensures c.records[j].route == INTERFACE
      {
        if j >= |a.records| {
          assert c.records[j] == b.records[j - |a.records|];
          if i >= |a.records| {
            assert c.records[i] == b.records[i - |a.records|];
          } else {
            assert c.records[i] == a.records[i];
          }
        } else {
          assert c.records[i] == a.records[i] && c.records[j] == a.records[j];
        }
      }
    }
  }

  /**
   * A superclass walk lists the records reached through interfaces after
   * all the others, however deep the known ancestry goes.
   */
  lemma {:induction false} Supers2InterfacesLast(g: Graph, base: Option<JType>, binder: Option<Bindings>, route: Route, fuel: nat)
    ensures InterfacesLast(Supers2(g, base, binder, route, fuel))
    decreases fuel, 0, 0
  {
    if base.Some? && !base.value.TVar? && base.value.name in g && fuel > 0 {
      var t := base.value;
      var bound := if t.Ref? then t else BoundInstance(t, binder);
      var here := Walk([Record(bound, route)], None);
      var rest := SupersOf(g, g[t.name], t.name, bound, route, fuel - 1);
      SupersOfInterfacesLast(g, g[t.name], t.name, bound, route, fuel - 1);
      SupersOfRouted(g, g[t.name], t.name, bound, route, fuel - 1);
      if route == INTERFACE {
        assert {route, INTERFACE} == {INTERFACE};
      } else {
        assert RoutedAs(here, {IDENTITY, EXTENSION});
      }
      ThenInterfacesLast(here, rest);
    }
  }

  lemma {:induction false} SupersOfInterfacesLast(g: Graph, sig: ClassSignature, name: string, boundGeneric: JType,
                                                  route: Route, fuel: nat)
    ensures InterfacesLast(SupersOf(g, sig, name, boundGeneric, route, fuel))
    decreases fuel, 2, 0
  {
    var thisType := ThisGeneralType(sig, name);
    var binder := if thisType.Generic? && boundGeneric.Generic? then ExtractBindings(thisType, boundGeneric) else None;
    Supers2InterfacesLast(g, sig.superClass, binder, route, fuel);
    InterfacesRouted(g, sig.interfaces, binder, fuel);
    ThenInterfacesLast(Supers2(g, sig.superClass, binder, route, fuel), Interfaces(g, sig.interfaces, binder, fuel));
  }

  /**
   * On any class graph, the collected supertypes come in route order: this
   * class's own type under IDENTITY, then the superclass and its known
   * ancestors under EXTENSION, then everything reached through an interface
   * under INTERFACE.
   */
  lemma BindingSupersRouteOrder(g: Graph, sig: ClassSignature, name: string, fuel: nat)
    ensures var w := BindingSupers(g, sig, name, fuel);
      && RoutedAs(Walk(w.records[1..], w.failure), {EXTENSION, INTERFACE})
      && InterfacesLast(w)
  {
    var binder := OwnBinder(sig, name);
    var sup := Supers2(g, sig.superClass, binder, EXTENSION, fuel);
    var ifs := Interfaces(g, sig.interfaces, binder, fuel);
    var own := Walk([Record(ThisGeneralType(sig, name), IDENTITY)], None);
    Supers2InterfacesLast(g, sig.superClass, binder, EXTENSION, fuel);
    InterfacesRouted(g, sig.interfaces, binder, fuel);
    ThenInterfacesLast(sup, ifs);
    assert RoutedAs(own, {IDENTITY, EXTENSION});
    ThenInterfacesLast(own, Then(sup, ifs));
    BindingSupersShape(g, sig, name, fuel);
    Supers2Routed(g, sig.superClass, binder, EXTENSION, fuel);
    ThenRoutedAs(sup, ifs, {EXTENSION, INTERFACE});
    assert BindingSupers(g, sig, name, fuel).records[1..] == Then(sup, ifs).records;
  }

  /**
   * With no class file known, the walk is flat: this class's own type, the
   * superclass, then each interface in declared order.
   */
  lemma BindingSupersFlat(sig: ClassSignature, name: string, fuel: nat)
    requires sig.superClass.Some? && !sig.superClass.value.TVar?
    requires forall i :: 0 <= i < |sig.interfaces| ==> !sig.interfaces[i].TVar?
    ensures BindingSupers(map[], sig, name, fuel) == Walk(
      [Record(ThisGeneralType(sig, name), IDENTITY), Record(sig.superClass.value, EXTENSION)]
        + seq(|sig.interfaces|, i requires 0 <= i < |sig.interfaces| => Record(sig.interfaces[i], INTERFACE)),
      None)
  {
    var binder := OwnBinder(sig, name);
    if sig.superClass.value.Generic? && binder.Some? {
      SubstIdentity(sig.superClass.value, sig.formals.value);
    }
    InterfacesFlat(sig.interfaces, binder, fuel, if binder.Some? then sig.formals.value else []);
  }

  /** With no class file known, each interface contributes exactly its own record. */
  lemma {:induction false} InterfacesFlat(ifs: seq<JType>, binder: Option<Bindings>, fuel: nat, formals: seq<string>)
    requires forall i :: 0 <= i < |ifs| ==> !ifs[i].TVar?
    requires binder.None? || binder == Some(IdentityBindings(formals))
    ensures Interfaces(map[], ifs, binder, fuel)
      == Walk(seq(|ifs|, i requires 0 <= i < |ifs| => Record(ifs[i], INTERFACE)), None)
    decreases |ifs|
  {
    if ifs != [] {
      InterfacesFlat(ifs[1..], binder, fuel, formals);
      if ifs[0].Generic? && binder.Some? {
        SubstIdentity(ifs[0], formals);
      }
      var tail := seq(|ifs| - 1, i requires 0 <= i < |ifs| - 1 => Record(ifs[1..][i], INTERFACE));
      assert seq(|ifs|, i requires 0 <= i < |ifs| => Record(ifs[i], INTERFACE)) == [Record(ifs[0], INTERFACE)] + tail;
    }
  }

  /** The superclass, if any, then the interfaces. */
  function DirectSupers(sig: ClassSignature): seq<JType> {
    (if sig.superClass.Some? then [sig.superClass.value] else []) + sig.interfaces
  }

  /**
   * An acyclic class graph: every known class has a rank, and every known
   * direct supertype of a class has a smaller rank than the class.
   */
  predicate Ranked(g: Graph, rank: map<string, nat>) {
    && (forall n :: n in g ==> n in rank)
    && forall n, t :: n in g && t in DirectSupers(g[n]) && !t.TVar? && t.name in g ==> rank[t.name] < rank[n]
  }

  /** The fuel suffices for a supertype when it exceeds the supertype's rank (or the supertype is not known). */
  predicate Enough(g: Graph, rank: map<string, nat>, t: JType, fuel: nat)
    requires Ranked(g, rank)
  {
    !t.TVar? && t.name in g ==> rank[t.name] < fuel
  }

  lemma ThenFailure(a: Walk, b: Walk)
    ensures Then(a, b).failure == a.failure || Then(a, b).failure == b.failure
  {
  }

  lemma {:induction false} Supers2Terminates(g: Graph, rank: map<string, nat>, base: Option<JType>,
                                             binder: Option<Bindings>, route: Route, fuel: nat)
    requires Ranked(g, rank)
    requires base.Some? ==> Enough(g, rank, base.value, fuel)
    ensures Supers2(g, base, binder, route, fuel).failure != Some(TooDeep)
    decreases fuel, 0, 0
  {
    if base.Some? && !base.value.TVar? && base.value.name in g {
      var t := base.value;
      var bound := if t.Ref? then t else BoundInstance(t, binder);
      SupersOfTerminates(g, rank, t.name, bound, route, fuel - 1);
      ThenFailure(Walk([Record(bound, route)], None), SupersOf(g, g[t.name], t.name, bound, route, fuel - 1));
    }
  }

  lemma {:induction false} SupersOfTerminates(g: Graph, rank: map<string, nat>, name: string, boundGeneric: JType,
                                              route: Route, fuel: nat)
    requires Ranked(g, rank) && name in g && rank[name] <= fuel
    ensures SupersOf(g, g[name], name, boundGeneric, route, fuel).failure != Some(TooDeep)
    decreases fuel, 2, 0
  {
    var sig := g[name];
    var thisType := ThisGeneralType(sig, name);
    var binder := if thisType.Generic? && boundGeneric.Generic? then ExtractBindings(thisType, boundGeneric) else None;
    if sig.superClass.Some? {
      assert sig.superClass.value in DirectSupers(sig);
    }
    Supers2Terminates(g, rank, sig.superClass, binder, route, fuel);
    forall i | 0 <= i < |sig.interfaces| ensures Enough(g, rank, sig.interfaces[i], fuel) {
      assert sig.interfaces[i] in DirectSupers(sig);
    }
    InterfacesTerminate(g, rank, sig.interfaces, binder, fuel);
    ThenFailure(Supers2(g, sig.superClass, binder, route, fuel), Interfaces(g, sig.interfaces, binder, fuel));
  }

  lemma {:induction false} InterfacesTerminate(g: Graph, rank: map<string, nat>, ifs: seq<JType>,
                                               binder: Option<Bindings>, fuel: nat)
    requires Ranked(g, rank)
    requires forall i :: 0 <= i < |ifs| ==> Enough(g, rank, ifs[i], fuel)
    ensures Interfaces(g, ifs, binder, fuel).failure != Some(TooDeep)
    decreases fuel, 1, |ifs|
  {
    if ifs != [] {
      Supers2Terminates(g, rank, Some(ifs[0]), binder, INTERFACE, fuel);
      InterfacesTerminate(g, rank, ifs[1..], binder, fuel);
      ThenFailure(Supers2(g, Some(ifs[0]), binder, INTERFACE, fuel), Interfaces(g, ifs[1..], binder, fuel));
    }
  }

  /**
   * On an acyclic graph, fuel above the rank of every known direct
   * supertype of the class means the walk never runs out of fuel: `TooDeep`
   * only ever stands for a cycle.
   */
  lemma BindingSupersTerminates(g: Graph, rank: map<string, nat>, sig: ClassSignature, name: string, fuel: nat)
    requires Ranked(g, rank)
    requires forall t :: t in DirectSupers(sig) ==> Enough(g, rank, t, fuel)
    ensures BindingSupers(g, sig, name, fuel).failure != Some(TooDeep)
  {
    var binder := OwnBinder(sig, name);
    if sig.superClass.Some? {
      assert sig.superClass.value in DirectSupers(sig);
    }
    Supers2Terminates(g, rank, sig.superClass, binder, EXTENSION, fuel);
    forall i | 0 <= i < |sig.interfaces| ensures Enough(g, rank, sig.interfaces[i], fuel) {
      assert sig.interfaces[i] in DirectSupers(sig);
    }
    InterfacesTerminate(g, rank, sig.interfaces, binder, fuel);
    var rest := Then(Supers2(g, sig.superClass, binder, EXTENSION, fuel), Interfaces(g, sig.interfaces, binder, fuel));
    ThenFailure(Supers2(g, sig.superClass, binder, EXTENSION, fuel), Interfaces(g, sig.interfaces, binder, fuel));
    ThenFailure(Walk([Record(ThisGeneralType(sig, name), IDENTITY)], None), rest);
  }

  /** The empty successful walk is a unit of `Then`, on both sides. */
  lemma ThenUnit(w: Walk)
    ensures Then(Walk([], None), w) == w
    ensures Then(w, Walk([], None)) == w
  {
    assert [] + w.records == w.records;
    assert w.records + [] == w.records;
  }

  lemma ThenAssociative(a: Walk, b: Walk, c: Walk)
    ensures Then(Then(a, b), c) == Then(a, Then(b, c))
  {
    if a.failure.None? && b.failure.None? {
      assert (a.records + b.records) + c.records == a.records + (b.records + c.records);
    }
  }

  /** Walking the interfaces is walking a prefix of them, then the rest. */
  lemma {:induction false} InterfacesSplit(g: Graph, ifs: seq<JType>, binder: Option<Bindings>, fuel: nat, k: nat)
    requires k <= |ifs|
    ensures Interfaces(g, ifs, binder, fuel) == Then(Interfaces(g, ifs[..k], binder, fuel), Interfaces(g, ifs[k..], binder, fuel))
    decreases k
  {
    if k == 0 {
      assert ifs[k..] == ifs;
      ThenUnit(Interfaces(g, ifs, binder, fuel));
    } else {
      var head := Supers2(g, Some(ifs[0]), binder, INTERFACE, fuel);
      InterfacesSplit(g, ifs[1..], binder, fuel, k - 1);
      assert ifs[1..][k - 1..] == ifs[k..];
      assert ifs[..k][1..] == ifs[1..][..k - 1];
      ThenAssociative(head, Interfaces(g, ifs[1..][..k - 1], binder, fuel), Interfaces(g, ifs[k..], binder, fuel));
    }
  }

  /** Walking one more interface appends its walk. */
  lemma InterfacesSnoc(g: Graph, ifs: seq<JType>, binder: Option<Bindings>, fuel: nat, i: nat)
    requires i < |ifs|
    ensures Interfaces(g, ifs[..i + 1], binder, fuel)
      == Then(Interfaces(g, ifs[..i], binder, fuel), Supers2(g, Some(ifs[i]), binder, INTERFACE, fuel))
  {
    var pre := ifs[..i + 1];
    InterfacesSplit(g, pre, binder, fuel, i);
    assert pre[..i] == ifs[..i];
    assert pre[i..] == [ifs[i]];
    assert [ifs[i]][1..] == [];
    ThenUnit(Supers2(g, Some(ifs[i]), binder, INTERFACE, fuel));
  }
}
