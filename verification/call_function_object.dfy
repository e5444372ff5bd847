/**
  One pending call of a native function (class `CallFunctionObject` of
  sources/gsmfunc.cc): one argument slot per formal parameter, seeded from the
  defaults, and a cursor that positional arguments advance and named arguments
  reposition. The call holds the descriptor as it was when the call was built;
  the source keeps a pointer to it instead, which makes no difference once every
  parameter has been declared.
*/
module CallFunctionObject {
  import opened Wrappers
  import Scan
  import opened FuncDescObj

  datatype PendingCall<!V> = PendingCall(funcName: string, desc: FuncDesc<V>,
                                         slots: seq<Option<V>>, cursor: nat)

  /** The slot array has exactly one slot per declared parameter. */
  predicate Valid<V>(c: PendingCall<V>)
  {
    |c.slots| == NumParams(c.desc)
  }

  /** What executing a call did: refused on the first empty slot, naming its
      parameter, or invoked the entry point on the argument array. */
  datatype Execution<V> =
    | Missing(index: nat, paramName: string)
    | Invoked(args: seq<V>, result: Option<V>)
  {
    /** The pointer the source returns: null on a refusal, otherwise whatever the
        entry point returned. */
    function Returned(): Option<V>
    {
      match this
      case Missing(_, _) => None
      case Invoked(_, result) => result
    }
  }

  /** The constructor (gsmfunc.cc:224-237): slot `i` holds a copy of parameter `i`'s
      default, and the cursor is at the first parameter. */
  function NewCall<V>(name: string, d: FuncDesc<V>): (c: PendingCall<V>)
    ensures Valid(c)
    ensures c.desc == d && FuncName(c) == name && GetCurrParamIndex(c) == 0
    ensures forall i :: 0 <= i < NumParams(d) ==> c.slots[i] == ParamDefaultValue(d, i)
  {
    PendingCall(name, d, seq(NumParams(d), i requires 0 <= i < NumParams(d) => ParamDefaultValue(d, i)), 0)
  }

  /** The declared type at the cursor, or `Error` when the call already has as many
      positional arguments as parameters (gsmfunc.cc:240-252). */
  function GetCurrParamType<V>(c: PendingCall<V>): (t: PortionType)
    requires Valid(c)
    ensures c.cursor < NumParams(c.desc) ==> t == c.desc.params[c.cursor].ptype
    ensures c.cursor >= NumParams(c.desc) ==> t == Error
  {
    if c.cursor < NumParams(c.desc) then ParamType(c.desc, c.cursor) else Error
  }

  /** Binds `v` at the cursor and moves to the next parameter; past the last
      parameter the argument is refused and nothing changes (gsmfunc.cc:255-271).
      The argument is a `Portion*` and may be null (`None`), which empties the slot. */
  function SetCurrParam<V>(c: PendingCall<V>, v: Option<V>): (c': PendingCall<V>)
    requires Valid(c)
    ensures Valid(c') && c'.desc == c.desc && c'.funcName == c.funcName
    ensures c.cursor < NumParams(c.desc) ==>
      && c'.cursor == c.cursor + 1
      && c'.slots[c.cursor] == v
      && forall i :: 0 <= i < |c.slots| && i != c.cursor ==> c'.slots[i] == c.slots[i]
    ensures c.cursor >= NumParams(c.desc) ==> c'.slots == c.slots && c'.cursor == c.cursor
  {
    if c.cursor < NumParams(c.desc) then
      c.(slots := c.slots[c.cursor := v], cursor := c.cursor + 1)
    else
      c
  }

  /** Moves the cursor to `index`, for a named argument (gsmfunc.cc:274-277). */
  function SetCurrParamIndex<V>(c: PendingCall<V>, index: nat): (c': PendingCall<V>)
    requires Valid(c)
    ensures Valid(c') && c'.desc == c.desc && c'.funcName == c.funcName && c'.slots == c.slots
    ensures GetCurrParamIndex(c') == index
  {
    c.(cursor := index)
  }

  function GetCurrParamIndex<V>(c: PendingCall<V>): int
  {
    c.cursor
  }

  /** Name lookup, delegated to the call's descriptor (gsmfunc.cc:286-289): an index
      it finds is always a slot of this call. */
  function FindParamName<V>(c: PendingCall<V>, name: string): (r: int)
    requires Valid(c)
    ensures r == FuncDescObj.FindParamName(c.desc, name)
    ensures -1 <= r < |c.slots|
  {
    FuncDescObj.FindParamName(c.desc, name)
  }

  function FuncName<V>(c: PendingCall<V>): string
  {
    c.funcName
  }

  /** Every slot holds a value. */
  predicate AllFilled<V>(slots: seq<Option<V>>)
  {
    forall i :: 0 <= i < |slots| ==> slots[i].Some?
  }

  /** The argument array handed to the entry point once every slot is filled. */
  function Arguments<V>(slots: seq<Option<V>>): (args: seq<V>)
    requires AllFilled(slots)
    ensures |args| == |slots|
    ensures forall i :: 0 <= i < |slots| ==> slots[i] == Some(args[i])
  {
    seq(|slots|, i requires 0 <= i < |slots| => slots[i].value)
  }

  /** Executes the call (gsmfunc.cc:298-313): the first empty slot refuses the call
      without touching the entry point; with every slot filled, the entry point runs
      once on the whole argument array and its result is returned. */
  function CallFunction<V>(c: PendingCall<V>): (e: Execution<V>)
    requires Valid(c)
    ensures e.Missing? <==> !AllFilled(c.slots)
    ensures e.Missing? ==>
      && e.index < |c.slots|
      && c.slots[e.index] == None
      && e.paramName == ParamName(c.desc, e.index)
      && forall j :: 0 <= j < e.index ==> c.slots[j].Some?
    ensures e.Missing? ==> e.Returned() == None
    ensures e.Invoked? ==>
      && |e.args| == |c.slots|
      && (forall i :: 0 <= i < |c.slots| ==> c.slots[i] == Some(e.args[i]))
      && e.result == c.desc.entry(e.args)
      && e.Returned() == e.result
  {
    var k := Scan.FirstIndex(c.slots, (s: Option<V>) => s.None?, 0);
    if k != -1 then
      Missing(k, ParamName(c.desc, k))
    else
      var args := Arguments(c.slots);
      Invoked(args, FuncDescObj.CallFunction(c.desc, args))
  }
}
