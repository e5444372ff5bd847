/**
  How the interpreter drives a pending call: positional arguments, named
  arguments and execution, stated over whole sequences of calls into
  `CallFunctionObject`.
*/
module CallProtocol {
  import opened Wrappers
  import opened FuncDescObj
  import opened CallFunctionObject

  /** Feeds positional arguments one after another, as the interpreter does for
      `f(a, b, ...)`; an argument may be null (`None`). */
  function BindPositional<V>(c: PendingCall<V>, vs: seq<Option<V>>): (c': PendingCall<V>)
    requires Valid(c)
    ensures Valid(c') && c'.desc == c.desc && c'.funcName == c.funcName
    decreases |vs|
  {
    if |vs| == 0 then c else BindPositional(SetCurrParam(c, vs[0]), vs[1..])
  }

  function Min(a: int, b: int): int
  {
    if a <= b then a else b
  }

  function Max0(a: int): nat
  {
    if a < 0 then 0 else a
  }

  /** From cursor `p`, positional binding fills slots `p .. p+m-1` with the first `m`
      arguments, where `m` counts the slots from the cursor to the last parameter
      inclusive (none when the cursor is at or past the end); the arguments beyond
      are refused and leave every slot, including those already bound, as they were. */
  lemma {:induction false} PositionalBinding<V>(c: PendingCall<V>, vs: seq<Option<V>>)
    requires Valid(c)
    ensures var m := Min(|vs|, Max0(NumParams(c.desc) - c.cursor));
      var c' := BindPositional(c, vs);
      && c'.cursor == c.cursor + m
      && (forall i :: c.cursor <= i < c.cursor + m ==> c'.slots[i] == vs[i - c.cursor])
      && (forall i :: 0 <= i < |c.slots| && !(c.cursor <= i < c.cursor + m) ==> c'.slots[i] == c.slots[i])
    decreases |vs|
  {
    if |vs| > 0 && c.cursor < NumParams(c.desc) {
      var c1 := SetCurrParam(c, vs[0]);
      PositionalBinding(c1, vs[1..]);
      var m1 := Min(|vs| - 1, Max0(NumParams(c.desc) - c1.cursor));
      var c' := BindPositional(c1, vs[1..]);
      assert c' == BindPositional(c, vs);
      forall i | c1.cursor <= i < c1.cursor + m1
        ensures c'.slots[i] == vs[i - c.cursor]
      {
        assert vs[1..][i - c1.cursor] == vs[i - c.cursor];
      }
    } else if |vs| > 0 {
      PositionalBinding(c, vs[1..]);
      assert BindPositional(c, vs) == BindPositional(c, vs[1..]);
    }
  }

  /** Binding non-null arguments never empties a slot, so a call whose slots are all
      filled stays that way. */
  lemma {:induction false} BindingKeepsFilled<V>(c: PendingCall<V>, vs: seq<Option<V>>)
    requires Valid(c)
    requires forall k :: 0 <= k < |vs| ==> vs[k].Some?
    ensures forall i :: 0 <= i < |c.slots| && c.slots[i].Some? ==> BindPositional(c, vs).slots[i].Some?
    decreases |vs|
  {
    if |vs| > 0 {
      BindingKeepsFilled(SetCurrParam(c, vs[0]), vs[1..]);
    }
  }

  /** No parameter is declared with the `Error` type tag. */
  predicate NoErrorTypes<V>(d: FuncDesc<V>)
  {
    forall i :: 0 <= i < NumParams(d) ==> ParamType(d, i) != Error
  }

  /** When no parameter is declared as `Error`, the type query answers `Error` exactly
      when the next positional argument would be refused. */
  lemma CurrParamTypeErrorIffRefused<V>(c: PendingCall<V>, v: Option<V>)
    requires Valid(c)
    requires NoErrorTypes(c.desc)
    ensures GetCurrParamType(c) == Error <==> SetCurrParam(c, v).cursor == c.cursor
  {
  }

  /** Binding by name, `f(name := v)`: jumping to the parameter's index and binding
      fills exactly that parameter's slot, and the next positional argument goes to
      the parameter after it. */
  lemma NamedBinding<V>(c: PendingCall<V>, name: string, v: Option<V>)
    requires Valid(c)
    requires CallFunctionObject.FindParamName(c, name) != -1
    ensures var k := CallFunctionObject.FindParamName(c, name);
      var c' := SetCurrParam(SetCurrParamIndex(c, k), v);
      && ParamName(c.desc, k) == name
      && c'.slots == c.slots[k := v]
      && c'.cursor == k + 1
  {
  }

  /** Every parameter has a declared default. */
  predicate AllDefaulted<V>(d: FuncDesc<V>)
  {
    forall i :: 0 <= i < NumParams(d) ==> ParamDefaultValue(d, i).Some?
  }

  /** A call executed without any argument invokes the entry point on the defaults. */
  lemma UnboundCallUsesDefaults<V>(name: string, d: FuncDesc<V>)
    requires AllDefaulted(d)
    ensures var e := CallFunctionObject.CallFunction(NewCall(name, d));
      && e.Invoked?
      && |e.args| == NumParams(d)
      && (forall i :: 0 <= i < NumParams(d) ==> ParamDefaultValue(d, i) == Some(e.args[i]))
      && e.result == d.entry(e.args)
  {
  }

  /** Binding one parameter by name before executing: the entry point sees the bound
      value at that parameter and the defaults everywhere else. */
  lemma NamedBindingKeepsDefaults<V>(name: string, d: FuncDesc<V>, param: string, v: V)
    requires AllDefaulted(d)
    requires FuncDescObj.FindParamName(d, param) != -1
    ensures var k := FuncDescObj.FindParamName(d, param);
      var e := CallFunctionObject.CallFunction(SetCurrParam(SetCurrParamIndex(NewCall(name, d), k), Some(v)));
      && e.Invoked?
      && |e.args| == NumParams(d)
      && e.args[k] == v
      && (forall i :: 0 <= i < NumParams(d) && i != k ==> ParamDefaultValue(d, i) == Some(e.args[i]))
      && e.result == d.entry(e.args)
  {
  }

  /** A call executed without arguments while some parameter has no default is
      refused at the first such parameter, and the entry point is not invoked. */
  lemma MissingDefaultRefused<V>(name: string, d: FuncDesc<V>, i: int)
    requires ValidIndex(d, i)
    requires ParamDefaultValue(d, i) == None
    ensures var e := CallFunctionObject.CallFunction(NewCall(name, d));
      && e.Missing?
      && e.index <= i
      && ParamDefaultValue(d, e.index) == None
      && e.paramName == ParamName(d, e.index)
      && e.Returned() == None
  {
  }

  /** `f(a1, ..., ak)` with at least as many positional arguments as parameters, the
      first `NumParams` of them non-null: the entry point runs on those arguments,
      whatever the defaults, and the surplus is refused. */
  lemma PositionalCallInvokesWithArguments<V>(name: string, d: FuncDesc<V>, vs: seq<Option<V>>)
    requires |vs| >= NumParams(d)
    requires forall k :: 0 <= k < NumParams(d) ==> vs[k].Some?
    ensures var e := CallFunctionObject.CallFunction(BindPositional(NewCall(name, d), vs));
      && e.Invoked?
      && |e.args| == NumParams(d)
      && (forall i :: 0 <= i < NumParams(d) ==> vs[i] == Some(e.args[i]))
      && e.result == d.entry(e.args)
  {
    var c := NewCall(name, d);
    PositionalBinding(c, vs);
    var c' := BindPositional(c, vs);
    assert AllFilled(c'.slots);
  }

  /** A null positional argument replaces the default in its slot, so a call that
      binds one to a parameter, however many arguments it has, is refused at or
      before that parameter, and the entry point is not invoked. */
  lemma NullArgumentRefused<V>(name: string, d: FuncDesc<V>, vs: seq<Option<V>>, i: int)
    requires ValidIndex(d, i) && i < |vs| && vs[i] == None
    ensures var e := CallFunctionObject.CallFunction(BindPositional(NewCall(name, d), vs));
      && e.Missing?
      && e.index <= i
      && vs[e.index] == None
      && e.Returned() == None
  {
    if |vs| >= NumParams(d) {
      NullArgumentRefusedFullCall(name, d, vs, i);
    } else {
      NullArgumentRefusedShortCall(name, d, vs, i);
    }
  }

  /** `NullArgumentRefused` when there are at least as many arguments as parameters. */
  lemma NullArgumentRefusedFullCall<V>(name: string, d: FuncDesc<V>, vs: seq<Option<V>>, i: int)
    requires |vs| >= NumParams(d)
    requires ValidIndex(d, i) && i < |vs| && vs[i] == None
    ensures var e := CallFunctionObject.CallFunction(BindPositional(NewCall(name, d), vs));
      && e.Missing?
      && e.index <= i
      && vs[e.index] == None
      && e.Returned() == None
  {
    var c := NewCall(name, d);
    PositionalBinding(c, vs);
    assert BindPositional(c, vs).slots[i] == None;
  }

  /** `NullArgumentRefused` when there are fewer arguments than parameters: the
      defaults still fill the slots after the last argument. */
  lemma NullArgumentRefusedShortCall<V>(name: string, d: FuncDesc<V>, vs: seq<Option<V>>, i: int)
    requires |vs| < NumParams(d)
    requires ValidIndex(d, i) && i < |vs| && vs[i] == None
    ensures var e := CallFunctionObject.CallFunction(BindPositional(NewCall(name, d), vs));
      && e.Missing?
      && e.index <= i
      && vs[e.index] == None
      && e.Returned() == None
  {
    var c := NewCall(name, d);
    PositionalBinding(c, vs);
    assert BindPositional(c, vs).cursor == |vs|;
    assert BindPositional(c, vs).slots[i] == None;
  }
}
