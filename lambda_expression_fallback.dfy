/**
 * The unreduced method-reference expression node (`LambdaExpressionFallback`):
 * a deferred reference to a method or constructor, with the arguments already
 * curried into it, rendered either as `Receiver::name` / `Class::name` or as an
 * explicit lambda `(arg_0, arg_1) -> Class.name(curried..., arg_0, arg_1)`.
 */
module LambdaExpressions {
  import opened Wrappers
  import opened JavaTypes

  /** The internal name of a constructor. */
  const InitMethod: string := "<init>"

  /** The stored method name: a constructor is shown as `new`. */
  function StoredName(lambdaFnName: string): (name: string)
    ensures lambdaFnName == InitMethod ==> name == "new"
    ensures lambdaFnName != InitMethod ==> name == lambdaFnName
  {
    if lambdaFnName == InitMethod then "new" else lambdaFnName
  }

  /**
   * The constructor's `switch` on the number of curried arguments: the bare
   * `::` form is used for a static reference taking exactly one argument, or
   * for an instance reference whose single curried argument is the receiver
   * and which takes exactly one argument.
   */
  function IsColon(curried: nat, targets: nat, instance: bool): (colon: bool)
    ensures colon <==>
      || (curried == 0 && targets == 1 && !instance)
      || (curried == 1 && targets == 1 && instance)
  {
    match curried
    case 0 => targets == 1 && !instance
    case 1 => targets == 1 && instance
    case _ => false
  }

  /** The decimal text of a natural number. */
  function NatText(n: nat): string
    decreases n
  {
    if n < 10 then [Digit(n)] else NatText(n / 10) + [Digit(n % 10)]
  }

  function Digit(d: nat): char
    requires d < 10
  {
    "0123456789"[d]
  }

  /** The placeholder name of the `x`-th target parameter. */
  function ArgName(x: nat): string {
    "arg_" + NatText(x)
  }

  /** `arg_0, ..., arg_{n-1}`. */
  function ArgNames(n: nat): (names: seq<string>)
    ensures |names| == n
    ensures forall x :: 0 <= x < n ==> names[x] == ArgName(x)
  {
    seq(n, x requires 0 <= x < n => ArgName(x))
  }

  /** The items separated by `sep`, with no leading or trailing separator. */
  function Join(items: seq<string>, sep: string): string
    decreases |items|
  {
    if items == [] then ""
    else if |items| == 1 then items[0]
    else items[0] + sep + Join(items[1..], sep)
  }

  /**
   * The head loop of the lambda form: parameter names `x` to `n - 1`, each
   * after a `", "` unless it is the very first parameter.
   */
  function ParamsFrom(x: nat, n: nat): string
    decreases n - x
  {
    if x >= n then "" else (if x > 0 then ", " else "") + ArgName(x) + ParamsFrom(x + 1, n)
  }

  /**
   * The argument loops of the lambda form, driven by the `first` flag of the
   * `comma` helper: each item is preceded by `", "` unless nothing has been
   * printed yet. Returns the text and the flag afterwards.
   */
  function CommaFold(first: bool, items: seq<string>): (string, bool)
    decreases |items|
  {
    if items == [] then ("", first)
    else
      var sep := if first then "" else ", ";
      var (rest, after) := CommaFold(false, items[1..]);
      (sep + items[0] + rest, after)
  }

  /**
   * `dump`: the text of a node whose curried arguments render as
   * `render(e)`. Without a curried argument, the lambda form of an instance
   * reference reads a receiver that is not there (the source's
   * `curriedArgs.get(0)` fails); that case is `None`.
   */
  function Render<E>(callClassType: JType, lambdaFnName: string, targetFnArgTypes: seq<JType>,
                     curriedArgs: seq<E>, instance: bool, colon: bool, render: E -> string): (text: Option<string>)
    requires colon && instance ==> curriedArgs != []
    ensures text.None? <==> !colon && instance && curriedArgs == []
  {
    if colon then
      if instance then Some(render(curriedArgs[0]) + "::" + lambdaFnName)
      else Some(TypeText(callClassType) + "::" + lambdaFnName)
    else if instance && curriedArgs == [] then None
    else
      var n := |targetFnArgTypes|;
      var target := if instance then render(curriedArgs[0]) else TypeText(callClassType);
      var skip := if instance then 1 else 0;
      Some(LambdaHead(n) + " -> " + target + "." + lambdaFnName
           + "(" + CallArguments(Texts(curriedArgs[skip..], render), n) + ")")
  }

  /** The parameter list of the lambda form, parenthesised only for more than one parameter. */
  function LambdaHead(n: nat): string {
    (if n > 1 then "(" else "") + ParamsFrom(0, n) + (if n > 1 then ")" else "")
  }

  /** The call's argument list: the curried texts, then the parameter names, sharing one `first` flag. */
  function CallArguments(curriedTexts: seq<string>, n: nat): string {
    var (curriedText, first) := CommaFold(true, curriedTexts);
    curriedText + CommaFold(first, ArgNames(n)).0
  }

  function Texts<E>(es: seq<E>, render: E -> string): (ts: seq<string>)
    ensures |ts| == |es|
    ensures forall i :: 0 <= i < |es| ==> ts[i] == render(es[i])
  {
    seq(|es|, i requires 0 <= i < |es| => render(es[i]))
  }

  /** One element before the rest of a join. */
  lemma JoinCons(x: string, rest: seq<string>, sep: string)
    ensures Join([x] + rest, sep) == if rest == [] then x else x + sep + Join(rest, sep)
  {
    assert ([x] + rest)[1..] == rest;
  }

  /** Joining two non-empty lists is joining each and putting one separator between. */
  lemma {:induction false} JoinAppend(a: seq<string>, b: seq<string>, sep: string)
    requires a != [] && b != []
    ensures Join(a + b, sep) == Join(a, sep) + sep + Join(b, sep)
    decreases |a|
  {
    if |a| == 1 {
      assert a + b == [a[0]] + b;
      JoinCons(a[0], b, sep);
    } else {
      assert a + b == [a[0]] + (a[1..] + b);
      JoinCons(a[0], a[1..] + b, sep);
      JoinAppend(a[1..], b, sep);
      assert a == [a[0]] + a[1..];
      JoinCons(a[0], a[1..], sep);
    }
  }

  /**
   * The comma fold prints a separator before every item except the first one
   * printed at all, and its flag stays set only while nothing is printed.
   */
  lemma {:induction false} CommaFoldIsJoin(first: bool, items: seq<string>)
    ensures CommaFold(first, items).1 == (first && items == [])
    ensures CommaFold(first, items).0 ==
      if items == [] then "" else (if first then "" else ", ") + Join(items, ", ")
    decreases |items|
  {
    if items != [] {
      CommaFoldIsJoin(false, items[1..]);
      assert items == [items[0]] + items[1..];
      JoinCons(items[0], items[1..], ", ");
    }
  }

  /**
   * The two argument loops together print the curried texts followed by the
   * parameter names, joined by `", "`, with no leading separator.
   */
  lemma CallArgumentsJoined(curriedTexts: seq<string>, n: nat)
    ensures CallArguments(curriedTexts, n) == Join(curriedTexts + ArgNames(n), ", ")
  {
    var params := ArgNames(n);
    CommaFoldIsJoin(true, curriedTexts);
    if curriedTexts == [] {
      NoCurriedArguments(params);
    } else {
      assert CommaFold(true, curriedTexts).0 == "" + Join(curriedTexts, ", ") == Join(curriedTexts, ", ");
      CurriedArguments(curriedTexts, params);
    }
  }

  /** Without curried texts the call arguments are the parameter names alone. */
  lemma NoCurriedArguments(params: seq<string>)
    ensures CommaFold(true, []) == ("", true)
    ensures CommaFold(true, params).0 == Join([] + params, ", ")
  {
    CommaFoldIsJoin(true, params);
    assert [] + params == params;
  }

  /** After at least one curried text, every parameter name follows a separator. */
  lemma CurriedArguments(curriedTexts: seq<string>, params: seq<string>)
    requires curriedTexts != []
    requires CommaFold(true, curriedTexts) == (Join(curriedTexts, ", "), false)
    ensures CommaFold(true, curriedTexts).0 + CommaFold(false, params).0 == Join(curriedTexts + params, ", ")
  {
    CommaFoldIsJoin(false, params);
    if params == [] {
      assert curriedTexts + params == curriedTexts;
    } else {
      JoinAppend(curriedTexts, params, ", ");
    }
  }

  /** The head loop prints `arg_x, ..., arg_{n-1}` with separators only between names. */
  lemma {:induction false} ParamsFromIsJoin(x: nat, n: nat)
    requires x <= n
    ensures ParamsFrom(x, n) ==
      if x == n then "" else (if x > 0 then ", " else "") + Join(ArgNames(n)[x..], ", ")
    decreases n - x
  {
    if x < n {
      ParamsFromIsJoin(x + 1, n);
      var names := ArgNames(n);
      assert names[x..] == [ArgName(x)] + names[x + 1..];
      JoinCons(ArgName(x), names[x + 1..], ", ");
    }
  }

  /** The parameter list is `arg_0, ..., arg_{n-1}`, in parentheses exactly when n > 1. */
  lemma LambdaHeadJoined(n: nat)
    ensures LambdaHead(n) ==
      if n > 1 then "(" + Join(ArgNames(n), ", ") + ")" else Join(ArgNames(n), ", ")
  {
    ParamsFromIsJoin(0, n);
    assert ArgNames(n)[0..] == ArgNames(n);
    if n == 0 {
      assert ArgNames(n) == [];
    }
  }

  /**
   * The lambda form written with `Join`: the parameter names `arg_0, ...`
   * (in parentheses for more than one), ` -> `, the target, `.` and the
   * name, and a call whose arguments are the curried texts followed by the
   * parameter names, joined by `", "`.
   */
  function JoinedLambda(n: nat, target: string, name: string, curriedTexts: seq<string>): string {
    var params := Join(ArgNames(n), ", ");
    (if n > 1 then "(" + params + ")" else params) + " -> " + target + "." + name
      + "(" + Join(curriedTexts + ArgNames(n), ", ") + ")"
  }

  /**
   * `dump`'s loops build the lambda form: the target is the receiver of an
   * instance reference or the class, and the curried arguments passed on
   * exclude the receiver.
   */
  lemma RenderLambdaForm<E>(callClassType: JType, name: string, targets: seq<JType>,
                            curried: seq<E>, instance: bool, render: E -> string)
    requires !instance || curried != []
    ensures var target := if instance then render(curried[0]) else TypeText(callClassType);
      var curriedTexts := Texts(if instance then curried[1..] else curried, render);
      Render(callClassType, name, targets, curried, instance, false, render)
        == Some(JoinedLambda(|targets|, target, name, curriedTexts))
  {
    var n := |targets|;
    LambdaHeadJoined(n);
    var skip := if instance then 1 else 0;
    assert curried[skip..] == if instance then curried[1..] else curried;
    CallArgumentsJoined(Texts(curried[skip..], render), n);
  }

  /** The `::` forms: `receiver::name` for an instance reference, `Class::name` otherwise. */
  lemma RenderColonForm<E>(callClassType: JType, name: string, targets: seq<JType>,
                           curried: seq<E>, instance: bool, render: E -> string)
    requires IsColon(|curried|, |targets|, instance)
    ensures Render(callClassType, name, targets, curried, instance, true, render)
      == Some(if instance then render(curried[0]) + "::" + name else TypeText(callClassType) + "::" + name)
  {
  }

  /** The lambda form of an instance reference with no curried argument has no rendering. */
  lemma RenderNeedsReceiver<E>(callClassType: JType, name: string, targets: seq<JType>,
                               render: E -> string)
    ensures Render(callClassType, name, targets, [], true, false, render).None?
  {
  }

  /** A static reference `Widget.foo` taking one argument renders as `Widget::foo`. */
  lemma RenderStaticOneArgument(render: string -> string)
    ensures var colon := IsColon(0, 1, false);
      Render(Ref("Widget"), StoredName("foo"), [Ref("int")], [], false, colon, render)
        == Some("Widget::foo")
  {
    assert StoredName("foo") == "foo";
    assert TypeText(Ref("Widget")) + "::" + "foo" == "Widget::foo";
  }

  /** An instance reference with its receiver curried renders as `receiver::foo`. */
  lemma RenderBoundReceiver(render: string -> string)
    requires render("receiverExpr") == "receiverExpr"
    ensures var colon := IsColon(1, 1, true);
      Render(Ref("Widget"), StoredName("foo"), [Ref("int")], ["receiverExpr"], true, colon, render)
        == Some("receiverExpr::foo")
  {
    assert StoredName("foo") == "foo";
    assert "receiverExpr" + "::" + "foo" == "receiverExpr::foo";
  }

  /** A static reference taking two arguments renders as an explicit lambda. */
  lemma RenderStaticTwoArguments(render: string -> string)
    ensures var colon := IsColon(0, 2, false);
      Render(Ref("Widget"), StoredName("foo"), [Ref("int"), Ref("int")], [], false, colon, render)
        == Some("(arg_0, arg_1) -> Widget.foo(arg_0, arg_1)")
  {
    TwoParameters();
    LambdaHeadJoined(2);
    CallArgumentsJoined(Texts([], render), 2);
    assert Texts([], render) + ArgNames(2) == ArgNames(2);
    assert StoredName("foo") == "foo" && !IsColon(0, 2, false);
    var lambda := Render(Ref("Widget"), "foo", [Ref("int"), Ref("int")], [], false, false, render);
    assert lambda == Some(LambdaHead(2) + " -> " + "Widget" + "." + "foo" + "(" + CallArguments(Texts([], render), 2) + ")");
    LambdaText();
  }

  /** The names of two parameters, joined. */
  lemma TwoParameters()
    ensures Join(ArgNames(2), ", ") == "arg_0, arg_1"
  {
    assert NatText(0) == "0" && NatText(1) == "1";
    var names := ArgNames(2);
    assert names[0] == "arg_0" && names[1] == "arg_1";
    assert names == ["arg_0", "arg_1"];
  }

  lemma LambdaText()
    ensures "(" + "arg_0, arg_1" + ")" + " -> " + "Widget" + "." + "foo" + "(" + "arg_0, arg_1" + ")"
      == "(arg_0, arg_1) -> Widget.foo(arg_0, arg_1)"
  {
    assert "(" + "arg_0, arg_1" + ")" == "(arg_0, arg_1)";
    assert "(arg_0, arg_1)" + " -> " + "Widget" == "(arg_0, arg_1) -> Widget";
    assert "(arg_0, arg_1) -> Widget" + "." + "foo" == "(arg_0, arg_1) -> Widget.foo";
  }

  /** A constructor reference taking one argument renders as `Class::new`. */
  lemma RenderConstructorReference(render: string -> string)
    ensures var colon := IsColon(0, 1, false);
      Render(Ref("Widget"), StoredName(InitMethod), [Ref("int")], [], false, colon, render)
        == Some("Widget::new")
  {
    assert TypeText(Ref("Widget")) + "::" + "new" == "Widget::new";
  }

  /**
   * Rewriting a list of arguments left to right while threading the
   * rewriter's state: the last argument is rewritten last, in the state the
   * earlier rewrites left behind.
   */
  function RewriteAll<E, S>(rewrite: (E, S) -> (E, S), es: seq<E>, s: S): (E2: (seq<E>, S))
    ensures |E2.0| == |es|
    decreases |es|
  {
    if es == [] then ([], s)
    else
      var n := |es| - 1;
      var (pre, s1) := RewriteAll(rewrite, es[..n], s);
      var (e, s2) := rewrite(es[n], s1);
      (pre + [e], s2)
  }

  /**
   * Element `i` of the rewritten list is the rewrite of the original element
   * `i` in the state reached after rewriting the elements before it.
   */
  lemma {:induction false} RewriteAllInOrder<E, S>(rewrite: (E, S) -> (E, S), es: seq<E>, s: S, i: nat)
    requires i < |es|
    ensures RewriteAll(rewrite, es, s).0[i] == rewrite(es[i], RewriteAll(rewrite, es[..i], s).1).0
    decreases |es|
  {
    var n := |es| - 1;
    if i < n {
      RewriteAllInOrder(rewrite, es[..n], s, i);
      assert es[..n][..i] == es[..i];
    } else {
      assert es[..i] == es[..n];
    }
  }

  /** The reason the two lvalue operations give. */
  datatype Unsupported = UnsupportedOperation

  class LambdaExpressionFallback<E> {
    const callClassType: JType
    const lambdaFnName: string
    const targetFnArgTypes: seq<JType>
    var curriedArgs: seq<E>
    const instance: bool
    const colon: bool

    /** The `colon` flag agrees with the number of curried arguments. */
    ghost predicate Valid()
      reads this
    {
      colon == IsColon(|curriedArgs|, |targetFnArgTypes|, instance)
    }

    constructor (callClassType: JType, lambdaFnName: string, targetFnArgTypes: seq<JType>,
                 curriedArgs: seq<E>, instance: bool)
      ensures Valid()
      ensures this.callClassType == callClassType
      ensures this.lambdaFnName == StoredName(lambdaFnName)
      ensures this.targetFnArgTypes == targetFnArgTypes
      ensures this.curriedArgs == curriedArgs
      ensures this.instance == instance
      ensures colon <==>
        || (|curriedArgs| == 0 && |targetFnArgTypes| == 1 && !instance)
        || (|curriedArgs| == 1 && |targetFnArgTypes| == 1 && instance)
    {
      this.callClassType := callClassType;
      this.lambdaFnName := StoredName(lambdaFnName);
      this.targetFnArgTypes := targetFnArgTypes;
      this.curriedArgs := curriedArgs;
      this.instance := instance;
      this.colon := IsColon(|curriedArgs|, |targetFnArgTypes|, instance);
    }

    /**
     * `dump`, with the curried arguments rendered by `render`: the `::` form
     * when `colon` holds, otherwise the lambda form, which needs a receiver
     * for an instance reference.
     */
    function Dump(render: E -> string): (text: Option<string>)
      requires Valid()
      reads this
      ensures text.None? <==> !colon && instance && curriedArgs == []
      ensures colon ==> curriedArgs != [] || !instance
      ensures colon ==> text == Some((if instance then render(curriedArgs[0]) else TypeText(callClassType))
                                     + "::" + lambdaFnName)
      ensures !colon && text.Some? ==> instance ==> curriedArgs != []
      ensures !colon && text.Some? ==>
        text == Some(JoinedLambda(|targetFnArgTypes|,
                                  if instance then render(curriedArgs[0]) else TypeText(callClassType),
                                  lambdaFnName,
                                  Texts(if instance then curriedArgs[1..] else curriedArgs, render)))
    {
      if colon then
        RenderColonForm(callClassType, lambdaFnName, targetFnArgTypes, curriedArgs, instance, render);
        Render(callClassType, lambdaFnName, targetFnArgTypes, curriedArgs, instance, colon, render)
      else if instance && curriedArgs == [] then
        Render(callClassType, lambdaFnName, targetFnArgTypes, curriedArgs, instance, colon, render)
      else
        RenderLambdaForm(callClassType, lambdaFnName, targetFnArgTypes, curriedArgs, instance, render);
        Render(callClassType, lambdaFnName, targetFnArgTypes, curriedArgs, instance, colon, render)
    }

    /**
     * `applyExpressionRewriter`: replaces each curried argument, in index
     * order, by its rewrite, threading the rewriter's state, and returns this
     * same node.
     */
    method ApplyExpressionRewriter<S>(rewrite: (E, S) -> (E, S), s0: S) returns (r: LambdaExpressionFallback<E>, s: S)
      requires Valid()
      modifies this`curriedArgs
      ensures r == this && Valid()
      ensures (curriedArgs, s) == RewriteAll(rewrite, old(curriedArgs), s0)
      ensures |curriedArgs| == |old(curriedArgs)|
    {
      ghost var original := curriedArgs;
      s := s0;
      var x := 0;
      while x < |curriedArgs|
        invariant 0 <= x <= |curriedArgs| == |original|
        invariant curriedArgs[x..] == original[x..]
        invariant (curriedArgs[..x], s) == RewriteAll(rewrite, original[..x], s0)
      {
        assert curriedArgs[x] == curriedArgs[x..][0] == original[x];
        var (e, s') := rewrite(curriedArgs[x], s);
        assert original[..x + 1][..x] == original[..x];
        ghost var done := curriedArgs[..x];
        curriedArgs := curriedArgs[x := e];
        assert curriedArgs[..x + 1] == done + [e];
        assert curriedArgs[x + 1..] == original[x + 1..];
        s := s';
        x := x + 1;
      }
      assert original[..x] == original;
      assert curriedArgs[..x] == curriedArgs;
      r := this;
    }

    /** `replaceSingleUsageLValues` is not supported by this node. */
    function ReplaceSingleUsageLValues(): (r: Outcome<Unsupported>)
      ensures r == Fail(UnsupportedOperation)
    {
      Fail(UnsupportedOperation)
    }

    /** `collectUsedLValues` is not supported by this node. */
    function CollectUsedLValues(): (r: Outcome<Unsupported>)
      ensures r.Fail?
    {
      Fail(UnsupportedOperation)
    }
  }
}
