# Native-function descriptors and argument binding (GSM function table)

This project models how the GSM command language of Gambit exposes native functions to its interpreter
(`sources/gsmfunc.cc`). It also proves properties of that model.

- A **function descriptor** (`FuncDescObj`) holds a native function's entry point.
  It also holds a fixed-length table of formal parameters: a name, a declared `PortionType` and an optional default value.
- A **pending call** (`CallFunctionObject`) is one invocation being assembled.
  It has one argument slot per parameter, seeded from the defaults.
  It also has a cursor: positional arguments advance it, and named arguments move it to a parameter's index.
  Executing the call refuses it if any slot is empty; otherwise it hands the whole argument array to the entry point.

The model is functional. Each object is an immutable datatype, and each member function of a class is a pure function returning the updated object.

Files:
- `wrappers.dfy` — `Option` (a nullable `Portion*`) and `Result`.
- `scan.dfy` — `Scan.FirstIndex`, the left-to-right search that both name lookup and the empty-slot check perform.
- `func_desc_obj.dfy` — module `FuncDescObj`: the descriptor, parameter declaration, name lookup, and name uniqueness.
- `call_function_object.dfy` — module `CallFunctionObject`: the pending call, its cursor and slots, and execution.
- `call_protocol.dfy` — module `CallProtocol`: how the interpreter drives a call through positional and named arguments and then executes it.

Values (`Portion` objects) are the type parameter `V`. The source returns `DefaultValue->Copy()`. Under value semantics a copy is equal to the original and cannot be aliased, so each read of a default is independent of the stored one.

The entry point is a function value `seq<V> -> Option<V>` stored in the descriptor. It is never interpreted. The model records when it is called and on which argument array: `Execution.Invoked(args, result)` versus `Execution.Missing(index, name)`.

The accessors `NumParams`, `ParamName`, `ParamType`, `ParamDefaultValue`, `GetCurrParamIndex`, `FuncName` and `FuncDescObj.CallFunction` are modelled as plain functions. Their index preconditions (`ValidIndex`) are the source's assertions. What they return is stated in the contracts listed below.

The blank record that `new ParamInfoType[n]` produces is modelled as: empty name, no default, type `Error`. The header that declares `ParamInfoType` is not part of this model.

One consequence follows from the code as written, and the model keeps it. `SetParamInfo`'s duplicate scan reads every record, including undeclared ones and the record at `index` itself. So redeclaring a parameter under its own name is refused. The empty name is also refused while any record is still blank.

## Model

| member | source | states |
|---|---|---|
| `Scan.FirstIndex` | sources/gsmfunc.cc:166-173 | The result is -1 exactly when no element from `from` onward satisfies the test. Otherwise it is the first such index. |
| `FuncDescObj.NewFuncDesc` | sources/gsmfunc.cc:97-103 | A descriptor built with `size >= 0` has exactly `size` parameters. Each starts with an empty name and no default, and the descriptor keeps the given entry point. |
| `FuncDescObj.FindParamName` | sources/gsmfunc.cc:161-175 | Returns -1 exactly when no record carries the name. Otherwise it returns the smallest index whose name matches, which lies in `[0, NumParams)`. |
| `FuncDescObj.SetParamInfo` | sources/gsmfunc.cc:178-214 | Refused with `DuplicateParameterName` exactly when some record, `index` included, already carries the name. On success: `ParamName`, `ParamType` and `ParamDefaultValue` at `index` return what was declared. Every other record, the parameter count and the entry point are unchanged. |
| `FuncDescObj.DeclaredNameIsUnique` | sources/gsmfunc.cc:189-213 | After a successful declaration, no other record carries the new name. `FindParamName` finds the name at the declared index. |
| `FuncDescObj.SecondDeclarationRefused` | sources/gsmfunc.cc:189-208 | Once a name has been declared, declaring it again at any index is refused, so the first declaration is never overwritten. |
| `FuncDescObj.DeclareAll` | sources/gsmfunc.cc:178-214 | A run of declarations that succeeds keeps the entry point and the parameter count. |
| `FuncDescObj.DeclareAllKeepsDistinct` | sources/gsmfunc.cc:189-213 | A successful run of declarations leaves pairwise distinct names on every index it declared. This holds together with any set of indices whose names were already distinct. |
| `FuncDescObj.AllDeclaredMeansDistinctNames` | sources/gsmfunc.cc:178-214 | Once every parameter has been declared successfully, all parameter names of the descriptor are pairwise distinct. |
| `FuncDescObj.FindParamNameInvertsParamName` | sources/gsmfunc.cc:161-175 | With distinct names, `FindParamName(ParamName(i)) == i` for every parameter `i`. |
| `FuncDescObj.EmptyNameRefusedWhileBlank` | sources/gsmfunc.cc:189-198 | While any record is still blank, declaring a parameter with the empty name is refused. |
| `CallFunctionObject.NewCall` | sources/gsmfunc.cc:224-237 | A new call has one slot per parameter. Slot `i` equals `ParamDefaultValue(i)`, the cursor is 0, and `FuncName` returns the given name. |
| `CallFunctionObject.GetCurrParamType` | sources/gsmfunc.cc:240-252 | Returns the declared type of the parameter at the cursor. Returns `Error` when the cursor is at or past the parameter count. |
| `CallFunctionObject.SetCurrParam` | sources/gsmfunc.cc:255-271 | The argument may be null (`None`). Cursor in range: the cursor's slot becomes the argument, so a null argument empties it. The cursor increases by exactly one, and every other slot is unchanged. Cursor out of range: slots and cursor are both unchanged. |
| `CallFunctionObject.SetCurrParamIndex` | sources/gsmfunc.cc:274-283 | Afterwards `GetCurrParamIndex` returns the given index. Slots, name and descriptor are untouched. |
| `CallFunctionObject.FindParamName` | sources/gsmfunc.cc:286-289 | Returns exactly the descriptor's `FindParamName` result, which is -1 or the index of one of this call's slots. |
| `CallFunctionObject.Arguments` | sources/gsmfunc.cc:312 | When every slot is filled, the argument array has one element per slot, and element `i` is the value held in slot `i`. |
| `CallFunctionObject.CallFunction` | sources/gsmfunc.cc:298-313 | Refused exactly when some slot is empty. A refusal names the first empty slot and its parameter, returns null and does not invoke the entry point. Otherwise the entry point is invoked on the slot values, in order, and its result is returned. |
| `CallProtocol.BindPositional` | sources/gsmfunc.cc:255-271 | Feeding arguments one by one, null ones included, keeps one slot per parameter and keeps the call's descriptor and name. |
| `CallProtocol.PositionalBinding` | sources/gsmfunc.cc:255-271 | From any cursor `p`, positional arguments fill slots `p` up to `p+m-1`, and the cursor ends at `p+m`. Here `m` is at most the number of slots from the cursor to the last parameter, inclusive, and is zero when the cursor is at or past the end. Surplus arguments are refused. They leave every slot unchanged, including slots already bound. |
| `CallProtocol.BindingKeepsFilled` | sources/gsmfunc.cc:255-271 | Binding non-null arguments never empties a filled slot. |
| `CallProtocol.CurrParamTypeErrorIffRefused` | sources/gsmfunc.cc:240-271 | Suppose no parameter is declared with type `Error`. Then the type query returns `Error` exactly when the next positional argument would be refused. |
| `CallProtocol.NamedBinding` | sources/gsmfunc.cc:274-289 | A named argument is bound by jumping to `FindParamName(name)` and then binding. This fills exactly the slot of the parameter with that name, and moves the cursor just past it. |
| `CallProtocol.UnboundCallUsesDefaults` | sources/gsmfunc.cc:224-313 | Suppose every parameter has a default. Then executing a call with no arguments invokes the entry point on the defaults, in order. |
| `CallProtocol.NamedBindingKeepsDefaults` | sources/gsmfunc.cc:224-313 | Suppose every parameter has a default, and one parameter is bound by name before executing. The entry point then receives the bound value at that parameter and the defaults everywhere else. |
| `CallProtocol.MissingDefaultRefused` | sources/gsmfunc.cc:298-313 | Suppose some parameter has no default. Then executing a call with no arguments is refused at the first parameter without a default, and nothing is invoked. |
| `CallProtocol.PositionalCallInvokesWithArguments` | sources/gsmfunc.cc:224-313 | Suppose there are at least as many positional arguments as parameters, and the first `NumParams` are non-null. Then the entry point is invoked on exactly those arguments, and the surplus is refused. |
| `CallProtocol.NullArgumentRefused` | sources/gsmfunc.cc:255-313 | Suppose a positional argument bound to some parameter is null, however many arguments the call has. It replaces that parameter's default, so executing the call is refused at or before that parameter and nothing is invoked. |

## Left out

- `GSM::InitFunctions` (sources/gsmfunc.cc:83-86) registers the modules in the interpreter's global function table. That is registry wiring, and it calls `gclmath`, which is not part of this model.
- The `gerr` diagnostics are output only. The model reflects them as outcomes: `DuplicateParameterName`, `Execution.Missing(index, name)` naming the missing parameter, and the `Error` type tag. The "too many parameters" message printed by `SetCurrParam` has no model counterpart beyond the unchanged call.
- Memory management is not modelled. This covers the destructor, the `delete` of a replaced slot value, and the handling of ownership of the argument array passed to the entry point. Slots hold values, and replacing a slot is plain value replacement. The out-of-range branch of `SetCurrParam` drops its argument without releasing it. That leak is invisible in a value model.
- The entry point's behaviour is foreign code, so it stays an uninterpreted function value.
- The comment that a `porNUMERICAL` parameter takes no default (sources/gsmfunc.cc:50-54) is not enforced by `SetParamInfo`, so the model does not enforce it either.
- `NDEBUG` builds are not modelled. There, a duplicate name is silently stored and an out-of-range index is unchecked. The model follows the build with assertions: index ranges are preconditions, and a duplicate name refuses the declaration. In the source that assertion aborts the process. The model returns `Failure` and the caller keeps the old descriptor.
- `CallFunctionObject.NewCall`: the call holds a copy of the descriptor as it was when the call was built. The source keeps a pointer instead, so a `SetParamInfo` made after the call was created would be seen by the source's call but not by the model's. The model assumes every parameter of a descriptor is declared before any call to it is built, as module initialisation does.
- `CallFunctionObject.SetCurrParamIndex`: the source takes any `int` without a check. The model takes a `nat`, because a negative cursor makes the next `GetCurrParamType` or `SetCurrParam` index before the array. An index beyond `NumParams` is accepted, because the source's out-of-range branches handle it.
- The blank parameter record's type is `Error` by assumption. The header that declares `ParamInfoType` is not part of this model. No property depends on this choice except those about `GetCurrParamType` on undeclared parameters.
