/** The caller's side of the filter protocol: walk the filters once, give
    each fragment that binds a value the next parameter index, skip the
    fragments that are `null`, and collect the bound values in the same
    order as their markers. */
module FilterAssembly {
  import opened Wrappers
  import opened JsValue
  import opened Placeholders
  import opened DatabaseFilters

  /** The `WHERE` fragments (to be joined with `AND`) and the values bound to
      `$start`, `$start+1`, ... in that order. */
  datatype Assembled = Assembled(clauses: seq<string>, values: seq<Value>)

  /** The indices the markers of `clauses` refer to, clause by clause. */
  function PlaceholdersOf(clauses: seq<string>): seq<nat> {
    if clauses == [] then []
    else
      (match PlaceholderOf(clauses[0]) case Some(p) => [p] case None => [])
      + PlaceholdersOf(clauses[1..])
  }

  /** `start`, `start + 1`, ..., `start + n - 1`. */
  function Consecutive(start: nat, n: nat): (r: seq<nat>)
    ensures |r| == n && forall k :: 0 <= k < n ==> r[k] == start + k
    decreases n
  {
    if n == 0 then [] else [start] + Consecutive(start + 1, n - 1)
  }

  /** The non-null `getValue()` results of `filters`, in order. */
  function ValuesOf(filters: seq<Filter>): seq<Value> {
    if filters == [] then []
    else
      (match GetValue(filters[0]) case Some(v) => [v] case None => [])
      + ValuesOf(filters[1..])
  }

  /** The walk over `filters` starting at parameter index `index`: a
      fragment that is `null` is skipped, a fragment is collected, and when
      its filter binds a value that value is collected too and the index
      moves on. */
  function Assemble(filters: seq<Filter>, index: nat): (a: Assembled)
    ensures a.values == ValuesOf(filters)
  {
    if filters == [] then Assembled([], [])
    else
      var f := filters[0];
      match GetWhereStringPart(f, index)
      case None =>
        Assemble(filters[1..], index)
      case Some(clause) =>
        match GetValue(f)
        case None =>
          var rest := Assemble(filters[1..], index);
          Assembled([clause] + rest.clauses, rest.values)
        case Some(v) =>
          var rest := Assemble(filters[1..], index + 1);
          Assembled([clause] + rest.clauses, [v] + rest.values)
  }

  /** The markers of the collected fragments are exactly `$index`,
      `$index+1`, ... in order, one per collected value: the k-th value is
      bound to the k-th marker. Which fragment each marker sits in is
      stated by `AssembleRendersBinders`. */
  lemma {:induction false} AssemblePairsMarkersWithValues(filters: seq<Filter>, index: nat)
    ensures var a := Assemble(filters, index);
      PlaceholdersOf(a.clauses) == Consecutive(index, |a.values|)
    decreases |filters|
  {
    if filters != [] {
      var f := filters[0];
      var a := Assemble(filters, index);
      ClauseAndValueInLockstep(f, index);
      match GetWhereStringPart(f, index)
      case None =>
        AssemblePairsMarkersWithValues(filters[1..], index);
      case Some(clause) =>
        if GetValue(f).Some? {
          var rest := Assemble(filters[1..], index + 1);
          AssemblePairsMarkersWithValues(filters[1..], index + 1);
          assert a.clauses == [clause] + rest.clauses && |a.values| == 1 + |rest.values|;
          assert PlaceholderOf(clause) == Some(index);
          PlaceholdersOfCons(clause, rest.clauses);
        } else {
          var rest := Assemble(filters[1..], index);
          AssemblePairsMarkersWithValues(filters[1..], index);
          assert a.clauses == [clause] + rest.clauses && a.values == rest.values;
          PlaceholdersOfCons(clause, rest.clauses);
        }
    }
  }

  lemma PlaceholdersOfCons(clause: string, clauses: seq<string>)
    ensures PlaceholdersOf([clause] + clauses) ==
      (match PlaceholderOf(clause) case Some(p) => [p] case None => []) + PlaceholdersOf(clauses)
  {
    assert ([clause] + clauses)[1..] == clauses;
  }

  /** The filters that bind a value (`getValue()` is not `null`), in order. */
  function Binders(filters: seq<Filter>): (b: seq<Filter>)
    ensures forall k :: 0 <= k < |b| ==> GetValue(b[k]).Some?
  {
    if filters == [] then []
    else (if GetValue(filters[0]).Some? then [filters[0]] else []) + Binders(filters[1..])
  }

  /** The fragments that carry a marker, in order. */
  function MarkedClauses(clauses: seq<string>): seq<string> {
    if clauses == [] then []
    else (if PlaceholderOf(clauses[0]).Some? then [clauses[0]] else []) + MarkedClauses(clauses[1..])
  }

  lemma MarkedClausesCons(clause: string, clauses: seq<string>)
    ensures MarkedClauses([clause] + clauses) ==
      (if PlaceholderOf(clause).Some? then [clause] else []) + MarkedClauses(clauses)
  {
    assert ([clause] + clauses)[1..] == clauses;
  }

  /** One step of the walk over a filter that binds no value: it adds no
      marked fragment, no value and no binder. */
  lemma StepWithoutValue(filters: seq<Filter>, index: nat)
    requires filters != [] && GetValue(filters[0]).None?
    ensures var a, rest := Assemble(filters, index), Assemble(filters[1..], index);
      MarkedClauses(a.clauses) == MarkedClauses(rest.clauses) && a.values == rest.values
      && Binders(filters) == Binders(filters[1..])
  {
    var f := filters[0];
    ClauseAndValueInLockstep(f, index);
    if GetWhereStringPart(f, index).Some? {
      MarkedClausesCons(GetWhereStringPart(f, index).value, Assemble(filters[1..], index).clauses);
    }
  }

  /** One step of the walk over a filter that binds a value: it adds its
      comparison with marker `$index` and its value, and the rest of the
      walk starts at `index + 1`. */
  lemma StepWithValue(filters: seq<Filter>, index: nat)
    requires filters != [] && GetValue(filters[0]).Some?
    ensures var f, a, rest := filters[0], Assemble(filters, index), Assemble(filters[1..], index + 1);
      !f.HasEquity?
      && MarkedClauses(a.clauses) == [Comparison(f) + Placeholder(index)] + MarkedClauses(rest.clauses)
      && a.values == [GetValue(f).value] + rest.values
      && Binders(filters) == [f] + Binders(filters[1..])
  {
    var f := filters[0];
    ClauseAndValueInLockstep(f, index);
    var clause := GetWhereStringPart(f, index).value;
    assert clause == Comparison(f) + Placeholder(index);
    MarkedClausesCons(clause, Assemble(filters[1..], index + 1).clauses);
  }

  /** The k-th marked fragment is the comparison of the k-th binder followed
      by `$(index + k)`, and the k-th value is that binder's value. */
  ghost predicate RendersBinders(marked: seq<string>, values: seq<Value>, binders: seq<Filter>, index: nat) {
    |marked| == |binders| && |values| == |binders| &&
    forall k :: 0 <= k < |binders| ==>
      !binders[k].HasEquity? && marked[k] == Comparison(binders[k]) + Placeholder(index + k)
      && values[k] == GetValue(binders[k]).value
  }

  /** Which fragment goes with which value: the k-th fragment that carries a
      marker is the comparison of the k-th filter that binds a value,
      followed by `$(index + k)`, and the k-th collected value is that same
      filter's value. */
  lemma {:induction false} AssembleRendersBinders(filters: seq<Filter>, index: nat)
    ensures var a := Assemble(filters, index);
      RendersBinders(MarkedClauses(a.clauses), a.values, Binders(filters), index)
    decreases |filters|
  {
    if filters != [] {
      var f := filters[0];
      if GetValue(f).Some? {
        StepWithValue(filters, index);
        AssembleRendersBinders(filters[1..], index + 1);
        var rest := Assemble(filters[1..], index + 1);
        RendersBindersCons(Comparison(f) + Placeholder(index), MarkedClauses(rest.clauses),
          GetValue(f).value, rest.values, f, Binders(filters[1..]), index);
      } else {
        StepWithoutValue(filters, index);
        AssembleRendersBinders(filters[1..], index);
      }
    }
  }

  lemma RendersBindersCons(clause: string, marked: seq<string>, v: Value, values: seq<Value>,
                           f: Filter, binders: seq<Filter>, index: nat)
    requires RendersBinders(marked, values, binders, index + 1)
    requires !f.HasEquity? && clause == Comparison(f) + Placeholder(index) && GetValue(f) == Some(v)
    ensures RendersBinders([clause] + marked, [v] + values, [f] + binders, index)
  {
    var m, vs, b := [clause] + marked, [v] + values, [f] + binders;
    forall k | 0 < k < |b|
      ensures !b[k].HasEquity? && m[k] == Comparison(b[k]) + Placeholder(index + k) && vs[k] == GetValue(b[k]).value
    {
      assert m[k] == marked[k - 1] && b[k] == binders[k - 1] && vs[k] == values[k - 1];
      assert index + 1 + (k - 1) == index + k;
    }
  }

  /** A fragment without a marker is always `equity > 0`. */
  lemma {:induction false} AssembleUnmarkedAreEquity(filters: seq<Filter>, index: nat)
    ensures forall c :: c in Assemble(filters, index).clauses && PlaceholderOf(c).None? ==> c == EquityCondition
    decreases |filters|
  {
    if filters != [] {
      var f := filters[0];
      ClauseAndValueInLockstep(f, index);
      var next := if GetValue(f).Some? then index + 1 else index;
      AssembleUnmarkedAreEquity(filters[1..], next);
      var rest := Assemble(filters[1..], next);
      match GetWhereStringPart(f, index)
      case None =>
      case Some(clause) =>
        assert Assemble(filters, index).clauses == [clause] + rest.clauses;
    }
  }

  /** Without a `hasEquity` filter, every filter contributes exactly one
      fragment and one value. */
  lemma {:induction false} AssembleWithoutEquity(filters: seq<Filter>, index: nat)
    requires forall k :: 0 <= k < |filters| ==> !filters[k].HasEquity?
    ensures |Assemble(filters, index).clauses| == |filters|
    ensures |Assemble(filters, index).values| == |filters|
    decreases |filters|
  {
    if filters != [] {
      AssembleWithoutEquity(filters[1..], index + 1);
    }
  }

  /** A single recognised criterion yields one fragment, except a
      `hasEquity` whose value is falsy, which yields none. */
  lemma SingleCriterion(name: string, v: Value)
    requires name in FilterNames
    ensures BuildFilters([(name, v)]).Success?
    ensures |Assemble(BuildFilters([(name, v)]).value, 1).clauses| ==
      if name == "hasEquity" && !Truthy(v) then 0 else 1
  {
    var fs := BuildFilters([(name, v)]).value;
    assert KeyOf(fs[0]) == name && Payload(fs[0]) == v;
    assert fs == [fs[0]];
  }

  /** A `hasEquity` filter never takes a parameter index: the walk after
      it continues at the same index, whether its fragment is collected or
      skipped. */
  lemma EquityKeepsIndex(v: Value, rest: seq<Filter>, index: nat)
    ensures var tail := Assemble(rest, index);
      Assemble([HasEquity(v)] + rest, index) ==
        if Truthy(v) then Assembled([EquityCondition] + tail.clauses, tail.values) else tail
  {
    assert ([HasEquity(v)] + rest)[1..] == rest;
  }

  lemma ExampleEmployeeRange()
    ensures BuildFilters([("minEmployees", Num(5)), ("maxEmployees", Num(10))])
      == Success([MinEmployees(Num(5)), MaxEmployees(Num(10))])
  {
    var c := [("minEmployees", Num(5)), ("maxEmployees", Num(10))];
    var fs := [MinEmployees(Num(5)), MaxEmployees(Num(10))];
    assert Get(c, MinEmployeesName) == Some(Num(5));
    assert ValidateFilter(c).Pass?;
    var r := BuildFilters(c);
    assert r.Success? && r.value[0] == fs[0] && r.value[1] == fs[1];
    assert r.value == fs;
  }

  lemma ExampleInvertedRange()
    ensures BuildFilters([("minEmployees", Num(10)), ("maxEmployees", Num(5))])
      == Failure(BadRequest("minEmployees can't be greater than maxEmployees"))
  {
  }

  lemma ExampleEquityThenName()
    ensures BuildFilters([("hasEquity", Bool(true)), ("nameLike", Str("net"))])
      == Success([HasEquity(Bool(true)), CompanyNameLike(Str("net"))])
  {
    var c := [("hasEquity", Bool(true)), ("nameLike", Str("net"))];
    var fs := [HasEquity(Bool(true)), CompanyNameLike(Str("net"))];
    assert Get(c, MinEmployeesName).None?;
    var r := BuildFilters(c);
    assert r.Success? && r.value[0] == fs[0] && r.value[1] == fs[1];
    assert r.value == fs;
  }

  lemma ExampleUnknownName()
    ensures BuildFilters([("foo", Str("bar"))]) == Failure(NotAConstructor)
  {
  }
}
