/** The filter engine: turns an object of filter names and user values into
    a sequence of filters, each of which renders one SQL `WHERE` fragment for
    a given parameter index and supplies the value to bind there. */
module DatabaseFilters {
  import opened Wrappers
  import opened JsValue
  import opened Placeholders

  /** One filter object per variant of the source's class hierarchy; each
      carries the user value its constructor stores. */
  datatype Filter =
    | MinEmployees(value: Value)
    | MaxEmployees(value: Value)
    | CompanyNameLike(name: Value)
    | Title(title: Value)
    | MinSalary(value: Value)
    | HasEquity(enabled: Value)

  /** What `buildFilters` throws. */
  datatype FilterError =
    | BadRequest(message: string) // the BadRequestError of the min/max rule
    | NotAConstructor             // the TypeError of `new undefined(...)` for a name outside the table

  /** One property of the criteria object, in enumeration order. */
  type Entry = (string, Value)
  type Criteria = seq<Entry>

  const MinEmployeesName := "minEmployees"
  const MaxEmployeesName := "maxEmployees"

  /** The keys of `filterMap`. */
  const FilterNames: set<string> :=
    {"minEmployees", "maxEmployees", "nameLike", "title", "minSalary", "hasEquity"}

  const RangeMessage := "minEmployees can't be greater than maxEmployees"

  const EquityCondition := "equity > 0"

  /** A JavaScript object never has two properties with the same key. */
  ghost predicate DistinctKeys(c: Criteria) {
    forall a, b :: 0 <= a < b < |c| ==> c[a].0 != c[b].0
  }

  /** The `filterMap` key that selects the variant of `f`. */
  function KeyOf(f: Filter): (name: string)
    ensures name in FilterNames
  {
    match f
    case MinEmployees(_) => "minEmployees"
    case MaxEmployees(_) => "maxEmployees"
    case CompanyNameLike(_) => "nameLike"
    case Title(_) => "title"
    case MinSalary(_) => "minSalary"
    case HasEquity(_) => "hasEquity"
  }

  /** The user value `f` was constructed with. */
  function Payload(f: Filter): (v: Value)
    ensures f in {MinEmployees(v), MaxEmployees(v), CompanyNameLike(v), Title(v), MinSalary(v), HasEquity(v)}
  {
    match f
    case MinEmployees(v) => v
    case MaxEmployees(v) => v
    case CompanyNameLike(v) => v
    case Title(v) => v
    case MinSalary(v) => v
    case HasEquity(v) => v
  }

  /** `new filterMap[name](v)`: None when the lookup finds no class. */
  function Construct(name: string, v: Value): (r: Option<Filter>)
    ensures r.Some? <==> name in FilterNames
    ensures r.Some? ==> KeyOf(r.value) == name && Payload(r.value) == v
  {
    match name
    case "minEmployees" => Some(MinEmployees(v))
    case "maxEmployees" => Some(MaxEmployees(v))
    case "nameLike" => Some(CompanyNameLike(v))
    case "title" => Some(Title(v))
    case "minSalary" => Some(MinSalary(v))
    case "hasEquity" => Some(HasEquity(v))
    case _ => None
  }

  /** `c.key` on the criteria object: the value stored under `key`, if any. */
  function Get(c: Criteria, key: string): (r: Option<Value>)
    ensures r.Some? ==> (key, r.value) in c
    ensures r.None? <==> forall k :: 0 <= k < |c| ==> c[k].0 != key
  {
    if c == [] then None
    else if c[0].0 == key then Some(c[0].1)
    else Get(c[1..], key)
  }

  /** With distinct keys, each entry is what its own key looks up. */
  lemma {:induction false} GetFindsEntry(c: Criteria, k: nat)
    requires DistinctKeys(c) && k < |c|
    ensures Get(c, c[k].0) == Some(c[k].1)
  {
    if k > 0 {
      assert c[0].0 != c[k].0;
      assert DistinctKeys(c[1..]) by {
        forall a, b | 0 <= a < b < |c| - 1 ensures c[1..][a].0 != c[1..][b].0 {
          assert c[a + 1].0 != c[b + 1].0;
        }
      }
      GetFindsEntry(c[1..], k - 1);
    }
  }

  /** The table and `KeyOf` are inverse: each filter is what its own key
      constructs from its own value. */
  lemma ConstructKeyOf(f: Filter)
    ensures Construct(KeyOf(f), Payload(f)) == Some(f)
  {
  }

  /** `validateFilter`: throws BadRequest when both employee bounds are
      present and the minimum is numerically greater than the maximum. */
  function ValidateFilter(c: Criteria): (r: Outcome<FilterError>)
    ensures r.Fail? ==> r.error == BadRequest(RangeMessage)
    ensures Get(c, MinEmployeesName).None? || Get(c, MaxEmployeesName).None? ==> r.Pass?
    ensures Get(c, MinEmployeesName).Some? && Get(c, MaxEmployeesName).Some? ==>
      var lo, hi := ToNumber(Get(c, MinEmployeesName).value), ToNumber(Get(c, MaxEmployeesName).value);
      lo.Integer? && hi.Integer? && lo.i <= hi.i ==> r.Pass?
  {
    if Get(c, MinEmployeesName).Some? && Get(c, MaxEmployeesName).Some? then
      if GreaterThan(ToNumber(Get(c, MinEmployeesName).value), ToNumber(Get(c, MaxEmployeesName).value))
      then Fail(BadRequest(RangeMessage))
      else Pass
    else Pass
  }

  /** Validation fails exactly when the object has a `minEmployees` entry and
      a `maxEmployees` entry whose numbers compare min > max. */
  lemma ValidateFilterFailsExactly(c: Criteria)
    requires DistinctKeys(c)
    ensures ValidateFilter(c).Fail? <==>
      exists a, b :: 0 <= a < |c| && 0 <= b < |c| && c[a].0 == MinEmployeesName && c[b].0 == MaxEmployeesName
        && GreaterThan(ToNumber(c[a].1), ToNumber(c[b].1))
  {
    var lo, hi := Get(c, MinEmployeesName), Get(c, MaxEmployeesName);
    if ValidateFilter(c).Fail? {
      var a :| 0 <= a < |c| && c[a] == (MinEmployeesName, lo.value);
      var b :| 0 <= b < |c| && c[b] == (MaxEmployeesName, hi.value);
      assert c[a].0 == MinEmployeesName && c[b].0 == MaxEmployeesName;
    } else {
      forall a, b | 0 <= a < |c| && 0 <= b < |c| && c[a].0 == MinEmployeesName && c[b].0 == MaxEmployeesName
        ensures !GreaterThan(ToNumber(c[a].1), ToNumber(c[b].1))
      {
        GetFindsEntry(c, a);
        GetFindsEntry(c, b);
      }
    }
  }

  /** The `.map` over `Object.entries`: one filter per entry, in order; throws
      as soon as an entry's name has no class in `filterMap`. */
  function MapEntries(c: Criteria): (r: Result<seq<Filter>, FilterError>)
    ensures r.Success? <==> forall k :: 0 <= k < |c| ==> c[k].0 in FilterNames
    ensures r.Failure? ==> r.error == NotAConstructor
    ensures r.Success? ==> |r.value| == |c|
    ensures r.Success? ==> forall k :: 0 <= k < |c| ==> KeyOf(r.value[k]) == c[k].0 && Payload(r.value[k]) == c[k].1
  {
    if c == [] then Success([])
    else
      match Construct(c[0].0, c[0].1)
      case None => Failure(NotAConstructor)
      case Some(f) =>
        match MapEntries(c[1..])
        case Failure(e) => Failure(e)
        case Success(fs) => Success([f] + fs)
  }

  /** `Filter.buildFilters`: validation first, then one filter per entry. */
  function BuildFilters(c: Criteria): (r: Result<seq<Filter>, FilterError>)
    ensures ValidateFilter(c).Fail? ==> r == Failure(ValidateFilter(c).error)
    ensures r.Success? <==> ValidateFilter(c).Pass? && forall k :: 0 <= k < |c| ==> c[k].0 in FilterNames
    ensures r.Failure? && ValidateFilter(c).Pass? ==> r.error == NotAConstructor
    ensures r.Success? ==> |r.value| == |c|
    ensures r.Success? ==> forall k :: 0 <= k < |c| ==> KeyOf(r.value[k]) == c[k].0 && Payload(r.value[k]) == c[k].1
  {
    match ValidateFilter(c)
    case Fail(e) => Failure(e)
    case Pass => MapEntries(c)
  }

  /** On success, the k-th filter is exactly what `filterMap` constructs
      from the k-th entry. */
  lemma BuildFiltersFollowsTable(c: Criteria, k: nat)
    requires BuildFilters(c).Success? && k < |c|
    ensures Construct(c[k].0, c[k].1) == Some(BuildFilters(c).value[k])
  {
    ConstructKeyOf(BuildFilters(c).value[k]);
  }

  /** The comparison each parameterized variant renders before its marker. */
  function Comparison(f: Filter): (t: string)
    requires !f.HasEquity?
    ensures '$' !in t
  {
    match f
    case MinEmployees(_) => "num_employees >= "
    case MaxEmployees(_) => "num_employees <= "
    case CompanyNameLike(_) => "name ILIKE "
    case Title(_) => "title ILIKE "
    case MinSalary(_) => "salary >= "
  }

  /** `getWhereStringPart(startingParamIndex)`: the SQL fragment of `f`, or
      None (`null`) for a disabled `hasEquity` filter. */
  function GetWhereStringPart(f: Filter, startingParamIndex: nat): (r: Option<string>)
    ensures r.None? <==> f.HasEquity? && !Truthy(f.enabled)
    ensures f.HasEquity? && r.Some? ==> r.value == EquityCondition
    ensures f.HasEquity? && r.Some? ==> '$' !in r.value && PlaceholderOf(r.value).None?
    ensures !f.HasEquity? ==> r.Some? && PlaceholderOf(r.value) == Some(startingParamIndex)
    ensures !f.HasEquity? ==> TextBefore(r.value) == Comparison(f)
  {
    if f.HasEquity? then
      if Truthy(f.enabled) then
        NoDollarNoPlaceholder(EquityCondition);
        Some(EquityCondition)
      else None
    else Some(Parameterized(Comparison(f), startingParamIndex))
  }

  /** `%text%`: `text` with an SQL wildcard on each side. */
  predicate WildcardWrapped(s: string, text: string) {
    |s| == |text| + 2 && s[0] == '%' && s[|s| - 1] == '%' && s[1..|s| - 1] == text
  }

  /** `getValue()`: the value to bind at the fragment's placeholder, or None
      (`null`) for `hasEquity`, whose fragment has none. */
  function GetValue(f: Filter): (r: Option<Value>)
    ensures r.None? <==> f.HasEquity?
    ensures f.MinEmployees? || f.MaxEmployees? || f.MinSalary? ==> r == Some(Payload(f))
    ensures f.CompanyNameLike? || f.Title? ==> r.Some? && r.value.Str? && WildcardWrapped(r.value.s, ToText(Payload(f)))
  {
    match f
    case MinEmployees(v) => Some(v)
    case MaxEmployees(v) => Some(v)
    case CompanyNameLike(name) => Some(Str("%" + ToText(name) + "%"))
    case Title(title) => Some(Str("%" + ToText(title) + "%"))
    case MinSalary(v) => Some(v)
    case HasEquity(_) => None
  }

  /** The parameter index enters a fragment only through its marker: two
      indices give the same text before the marker, a parameterized fragment
      is that text followed by `$i`, and a `hasEquity` fragment does not
      depend on the index at all. */
  lemma IndexOnlyInPlaceholder(f: Filter, i: nat, j: nat)
    ensures GetWhereStringPart(f, i).Some? <==> GetWhereStringPart(f, j).Some?
    ensures GetWhereStringPart(f, i).Some? ==>
      TextBefore(GetWhereStringPart(f, i).value) == TextBefore(GetWhereStringPart(f, j).value)
    ensures !f.HasEquity? ==>
      GetWhereStringPart(f, i).value == TextBefore(GetWhereStringPart(f, i).value) + Placeholder(i)
    ensures f.HasEquity? ==> GetWhereStringPart(f, i) == GetWhereStringPart(f, j)
  {
  }

  /** A parameterized fragment holds exactly one `$`: its marker. */
  lemma ExactlyOneMarker(f: Filter, i: nat)
    requires !f.HasEquity?
    ensures multiset(GetWhereStringPart(f, i).value)['$'] == 1
  {
    MarkerCount(Comparison(f), i);
  }

  /** A fragment binds a value exactly when it has a marker: the fragment
      and the value of one filter never get out of step. */
  lemma ClauseAndValueInLockstep(f: Filter, i: nat)
    ensures GetWhereStringPart(f, i).None? ==> GetValue(f).None?
    ensures GetWhereStringPart(f, i).Some? ==>
      (PlaceholderOf(GetWhereStringPart(f, i).value).Some? <==> GetValue(f).Some?)
  {
  }
}
