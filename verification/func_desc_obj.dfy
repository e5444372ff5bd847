/**
  The descriptor of a native function registered with the command language
  interpreter (class `FuncDescObj` of sources/gsmfunc.cc): the entry point and a
  fixed-length table of formal parameters, each with a name, a declared type and
  an optional default value.

  Values (`Portion` objects in the source) are the type parameter `V`. The
  source hands out `DefaultValue->Copy()`; with value semantics a copy is the
  value itself, so every read is already independent of the stored default.
*/
module FuncDescObj {
  import opened Wrappers
  import Scan

  /** Runtime type tags of values (`PortionType`). The enumeration lives in a header
      that is not part of this model; the tags the descriptor code mentions are named,
      the rest are `Other`. */
  datatype PortionType = Error | Numerical | Double | Integer | Rational | Other(code: nat)

  /** One formal parameter (`ParamInfoType`). */
  datatype ParamInfo<V> = ParamInfo(name: string, ptype: PortionType, defaultValue: Option<V>)

  /** The entry point: receives the whole argument array and returns a value or null. */
  type EntryPoint<!V> = seq<V> -> Option<V>

  datatype FuncDesc<!V> = FuncDesc(entry: EntryPoint<V>, params: seq<ParamInfo<V>>)

  /** Why a declaration was refused. */
  datatype DeclError = DuplicateParameterName(name: string)

  /** A record as allocated by `new ParamInfoType[n]`, before any declaration:
      empty name, no default, and no meaningful type. */
  function BlankParam<V>(): ParamInfo<V>
  {
    ParamInfo("", Error, None)
  }

  /** The constructor: `size` blank parameter records (gsmfunc.cc:97-103). */
  function NewFuncDesc<V>(entry: EntryPoint<V>, size: int): (d: FuncDesc<V>)
    requires size >= 0
    ensures NumParams(d) == size
    ensures d.entry == entry
    ensures forall i :: 0 <= i < size ==> ParamName(d, i) == "" && ParamDefaultValue(d, i) == None
  {
    FuncDesc(entry, seq(size, _ => BlankParam()))
  }

  function NumParams<V>(d: FuncDesc<V>): int
  {
    |d.params|
  }

  predicate ValidIndex<V>(d: FuncDesc<V>, index: int)
  {
    0 <= index < NumParams(d)
  }

  function ParamName<V>(d: FuncDesc<V>, index: int): string
    requires ValidIndex(d, index)
  {
    d.params[index].name
  }

  function ParamType<V>(d: FuncDesc<V>, index: int): PortionType
    requires ValidIndex(d, index)
  {
    d.params[index].ptype
  }

  /** The declared default of parameter `index` (a copy), or `None` when it has none. */
  function ParamDefaultValue<V>(d: FuncDesc<V>, index: int): Option<V>
    requires ValidIndex(d, index)
  {
    d.params[index].defaultValue
  }

  /** Some parameter record, declared or blank, carries `name`. */
  predicate NameInUse<V>(d: FuncDesc<V>, name: string)
  {
    exists i :: 0 <= i < NumParams(d) && d.params[i].name == name
  }

  /** Linear lookup of a parameter by name (gsmfunc.cc:161-175): the smallest index
      whose record carries `name`, or -1. */
  function FindParamName<V>(d: FuncDesc<V>, name: string): (r: int)
    ensures -1 <= r < NumParams(d)
    ensures r == -1 <==> !NameInUse(d, name)
    ensures r != -1 ==> ParamName(d, r) == name
    ensures r != -1 ==> forall j :: 0 <= j < r ==> ParamName(d, j) != name
  {
    Scan.FirstIndex(d.params, (p: ParamInfo<V>) => p.name == name, 0)
  }

  /** Declares parameter `index` (gsmfunc.cc:178-214). The name scan covers every
      record, `index` included; a name already present refuses the declaration and
      leaves the descriptor as it was. */
  function SetParamInfo<V>(d: FuncDesc<V>, index: int, name: string, ptype: PortionType,
                           defaultValue: Option<V>): (r: Result<FuncDesc<V>, DeclError>)
    requires ValidIndex(d, index)
    ensures r.Failure? <==> NameInUse(d, name)
    ensures r.Failure? ==> r.error == DuplicateParameterName(name)
    ensures r.Success? ==> r.value.entry == d.entry && NumParams(r.value) == NumParams(d)
    ensures r.Success? ==>
      && ParamName(r.value, index) == name
      && ParamType(r.value, index) == ptype
      && ParamDefaultValue(r.value, index) == defaultValue
    ensures r.Success? ==> forall j :: ValidIndex(d, j) && j != index ==> r.value.params[j] == d.params[j]
  {
    if FindParamName(d, name) != -1 then
      Failure(DuplicateParameterName(name))
    else
      Success(d.(params := d.params[index := ParamInfo(name, ptype, defaultValue)]))
  }

  /** Forwards the argument array to the entry point (gsmfunc.cc:117-120); the entry
      point itself is foreign code and stays uninterpreted. */
  function CallFunction<V>(d: FuncDesc<V>, args: seq<V>): Option<V>
  {
    d.entry(args)
  }

  /** A successful declaration makes its name unique: no other record carries it. */
  lemma DeclaredNameIsUnique<V>(d: FuncDesc<V>, index: int, name: string, ptype: PortionType,
                                defaultValue: Option<V>)
    requires ValidIndex(d, index)
    requires SetParamInfo(d, index, name, ptype, defaultValue).Success?
    ensures var d' := SetParamInfo(d, index, name, ptype, defaultValue).value;
      FindParamName(d', name) == index
      && forall j :: ValidIndex(d', j) && j != index ==> ParamName(d', j) != name
  {
  }

  /** Declaring a name twice in one descriptor always refuses the second declaration,
      whatever index it targets, so the first one is never overwritten. */
  lemma SecondDeclarationRefused<V>(d: FuncDesc<V>, i: int, j: int, name: string,
                                    t1: PortionType, t2: PortionType, d1: Option<V>, d2: Option<V>)
    requires ValidIndex(d, i) && ValidIndex(d, j)
    requires SetParamInfo(d, i, name, t1, d1).Success?
    ensures SetParamInfo(SetParamInfo(d, i, name, t1, d1).value, j, name, t2, d2)
            == Failure(DuplicateParameterName(name))
  {
  }

  /** One declaration request: the arguments of a `SetParamInfo` call. */
  datatype Decl<V> = Decl(index: int, name: string, ptype: PortionType, defaultValue: Option<V>)

  predicate DeclsInRange<V>(d: FuncDesc<V>, ds: seq<Decl<V>>)
  {
    forall k :: 0 <= k < |ds| ==> ValidIndex(d, ds[k].index)
  }

  /** A module initialiser's sequence of `SetParamInfo` calls, stopping at the first refusal. */
  function DeclareAll<V>(d: FuncDesc<V>, ds: seq<Decl<V>>): (r: Result<FuncDesc<V>, DeclError>)
    requires DeclsInRange(d, ds)
    ensures r.Success? ==> r.value.entry == d.entry && NumParams(r.value) == NumParams(d)
    decreases |ds|
  {
    if |ds| == 0 then Success(d)
    else
      match SetParamInfo(d, ds[0].index, ds[0].name, ds[0].ptype, ds[0].defaultValue)
      case Failure(e) => Failure(e)
      case Success(d1) => DeclareAll(d1, ds[1..])
  }

  function DeclaredIndices<V>(ds: seq<Decl<V>>): set<int>
  {
    set k | 0 <= k < |ds| :: ds[k].index
  }

  /** The records at the indices in `s` carry pairwise distinct names. */
  predicate DistinctOn<V>(d: FuncDesc<V>, s: set<int>)
  {
    forall i, j :: i in s && j in s && 0 <= i < NumParams(d) && 0 <= j < NumParams(d) && i != j ==>
      ParamName(d, i) != ParamName(d, j)
  }

  /** Every pair of records carries distinct names. */
  predicate DistinctNames<V>(d: FuncDesc<V>)
  {
    forall i, j :: 0 <= i < NumParams(d) && 0 <= j < NumParams(d) && i != j ==>
      ParamName(d, i) != ParamName(d, j)
  }

  lemma {:induction false} DeclareAllKeepsDistinct<V>(d: FuncDesc<V>, s: set<int>, ds: seq<Decl<V>>)
    requires DeclsInRange(d, ds)
    requires DistinctOn(d, s)
    requires DeclareAll(d, ds).Success?
    ensures DistinctOn(DeclareAll(d, ds).value, s + DeclaredIndices(ds))
    decreases |ds|
  {
    if |ds| == 0 {
      assert DeclaredIndices(ds) == {};
      assert s + DeclaredIndices(ds) == s;
    } else {
      var k := ds[0].index;
      var d1 := SetParamInfo(d, k, ds[0].name, ds[0].ptype, ds[0].defaultValue).value;
      var s1 := s + {k};
      forall i, j | i in s1 && j in s1 && ValidIndex(d1, i) && ValidIndex(d1, j) && i != j
        ensures ParamName(d1, i) != ParamName(d1, j)
      {
        if i == k {
          DeclaredNameIsUnique(d, k, ds[0].name, ds[0].ptype, ds[0].defaultValue);
        } else if j == k {
          DeclaredNameIsUnique(d, k, ds[0].name, ds[0].ptype, ds[0].defaultValue);
        } else {
          assert d1.params[i] == d.params[i] && d1.params[j] == d.params[j];
        }
      }
      assert DistinctOn(d1, s1);
      DeclareAllKeepsDistinct(d1, s1, ds[1..]);
      assert s1 + DeclaredIndices(ds[1..]) == s + DeclaredIndices(ds) by {
        forall x | x in DeclaredIndices(ds)
          ensures x in s1 + DeclaredIndices(ds[1..])
        {
          var m :| 0 <= m < |ds| && ds[m].index == x;
          if m > 0 { assert ds[1..][m - 1] == ds[m]; }
        }
        forall x | x in DeclaredIndices(ds[1..])
          ensures x in DeclaredIndices(ds)
        {
          var m :| 0 <= m < |ds[1..]| && ds[1..][m].index == x;
          assert ds[m + 1] == ds[1..][m];
        }
      }
    }
  }

  /** Once every parameter has been declared successfully, the parameter names of the
      descriptor are pairwise distinct, whatever the records held before. */
  lemma AllDeclaredMeansDistinctNames<V>(d: FuncDesc<V>, ds: seq<Decl<V>>)
    requires DeclsInRange(d, ds)
    requires forall i :: ValidIndex(d, i) ==> i in DeclaredIndices(ds)
    requires DeclareAll(d, ds).Success?
    ensures DistinctNames(DeclareAll(d, ds).value)
  {
    DeclareAllKeepsDistinct(d, {}, ds);
    var d' := DeclareAll(d, ds).value;
    forall i, j | ValidIndex(d', i) && ValidIndex(d', j) && i != j
      ensures ParamName(d', i) != ParamName(d', j)
    {
      assert i in {} + DeclaredIndices(ds) && j in {} + DeclaredIndices(ds);
    }
  }

  /** With distinct names, lookup inverts naming: `FindParamName` finds each parameter
      at its own index. */
  lemma FindParamNameInvertsParamName<V>(d: FuncDesc<V>, i: int)
    requires DistinctNames(d)
    requires ValidIndex(d, i)
    ensures FindParamName(d, ParamName(d, i)) == i
  {
  }

  /** While any record is still blank, a parameter cannot be declared with the empty
      name: the blank record's own name matches it. */
  lemma EmptyNameRefusedWhileBlank<V>(d: FuncDesc<V>, blank: int, index: int, ptype: PortionType,
                                      defaultValue: Option<V>)
    requires ValidIndex(d, blank) && ValidIndex(d, index)
    requires d.params[blank] == BlankParam()
    ensures SetParamInfo(d, index, "", ptype, defaultValue).Failure?
  {
  }
}
