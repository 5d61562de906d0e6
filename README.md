# Filter-to-SQL engine of a jobs/companies API, in Dafny

This project models the filter engine of an Express job-listings backend
(`helpers/databaseFilters.js`). The engine takes an object of filter names
and user values, such as `{ nameLike: "net", minEmployees: 10 }`. It checks
one cross-field rule: `minEmployees` must not exceed `maxEmployees`. It then
turns each entry into a filter object through the fixed `filterMap` table.
Each filter can render a SQL `WHERE` fragment for a given parameter index
(`num_employees >= $3`) and can give the value to bind at that index. Either
answer can be `null`.

Modules, one per concern:

- `DatabaseFilters` is the engine itself. It has one `Filter` datatype
  constructor per class of the source. `BuildFilters` returns a `Result`:
  `BadRequest` for the min/max rule, and `NotAConstructor` for a name outside
  `filterMap`. For such a name, the source evaluates `new undefined(...)`,
  which throws a `TypeError` that does not name the key, so the model's
  error carries no key either. An error that names the offending key would
  be friendlier, but the model follows what the code throws.
- `JsValue` holds the user values (integer, string, boolean) and the three
  JavaScript conversions the filters apply: `Number(...)`, truthiness, and
  `${...}` interpolation.
- `Decimal` writes integers as decimal text and reads such text back.
- `Placeholders` holds the `$i` markers and reads the index back out of a
  rendered fragment.
- `FilterAssembly` models the caller-side walk. It gives `$1, $2, ...` to the
  fragments that bind a value, skips `null` fragments, and collects the
  values in step. The classes that do this walk are not part of this model.
  `Assemble` follows the contract in the doc comments of `getWhereStringPart`
  and `getValue`: the index moves on exactly when a value is bound.

The criteria object is a sequence of `(name, value)` entries in
`Object.entries` order. A JavaScript object never holds two entries with one
key. Lookup (`Get`) takes the first match, and the lemmas that relate entries
to lookups assume distinct keys (`DistinctKeys`). Every function is
deterministic, so two calls on the same object give equal filter sequences.

## Model

| member | source | states |
|---|---|---|
| `DatabaseFilters.Payload` | helpers/databaseFilters.js:15-17 | the user value a filter was constructed with (`this.value`, and likewise `this.name` at :96, `this.title` at :112, `this.enabled` at :138): the filter is one of the six constructors applied to it |
| `DatabaseFilters.KeyOf` | helpers/databaseFilters.js:150-157 | the `filterMap` key of each variant is one of the six names of the table |
| `DatabaseFilters.Construct` | helpers/databaseFilters.js:50-54 | `new filterMap[name](v)` yields a filter exactly when `name` is one of the six keys, and that filter has key `name` and carries `v` |
| `DatabaseFilters.ConstructKeyOf` | helpers/databaseFilters.js:150-157 | the table is the inverse of `KeyOf`: every filter is what its own key constructs from its own value |
| `DatabaseFilters.Get` | helpers/databaseFilters.js:65-66 | a lookup finds a value only if that (key, value) entry is present, and finds nothing exactly when no entry has the key |
| `DatabaseFilters.GetFindsEntry` | helpers/databaseFilters.js:65-66 | with distinct keys, looking up an entry's key gives that entry's value |
| `DatabaseFilters.ValidateFilter` | helpers/databaseFilters.js:64-70 | a failure is always the BadRequest "minEmployees can't be greater than maxEmployees"; validation passes when either bound is absent, or when both are numbers with min <= max |
| `DatabaseFilters.ValidateFilterFailsExactly` | helpers/databaseFilters.js:64-70 | validation fails if and only if there is a `minEmployees` entry and a `maxEmployees` entry with `Number(min) > Number(max)` |
| `DatabaseFilters.MapEntries` | helpers/databaseFilters.js:46-55 | the `.map` succeeds exactly when every name is in `filterMap` (otherwise the TypeError), giving one filter per entry in order, each with the entry's key and value |
| `DatabaseFilters.BuildFilters` | helpers/databaseFilters.js:42-58 | validation runs first: a validation failure is the result even when unknown names are present, and no filters are produced; success happens exactly when validation passes and every name is known; it then gives one filter per entry, in order, with the entry's key and value |
| `DatabaseFilters.BuildFiltersFollowsTable` | helpers/databaseFilters.js:46-57 | on success, the k-th filter is what `filterMap` constructs from the k-th entry |
| `DatabaseFilters.Comparison` | helpers/databaseFilters.js:78-131 | the comparison text each parameterized variant renders (`num_employees >= `, `num_employees <= `, `name ILIKE `, `title ILIKE `, `salary >= `) holds no `$` |
| `DatabaseFilters.GetWhereStringPart` | helpers/databaseFilters.js:78-143 | the fragment is `null` exactly for a `hasEquity` filter with a falsy value; an enabled `hasEquity` fragment is `equity > 0` and has no marker; every other fragment reads back as its variant's comparison followed by one marker for exactly the given index |
| `DatabaseFilters.GetValue` | helpers/databaseFilters.js:103-122 | `getValue` is `null` exactly for `hasEquity`; the employee and salary filters bind the user value unchanged (the base `getValue` at :32-34); `nameLike` and `title` bind a string of length n+2 that starts and ends with `%` and holds the user text in between |
| `DatabaseFilters.IndexOnlyInPlaceholder` | helpers/databaseFilters.js:78-132 | the index enters a fragment only through its marker: the text before the marker is the same for every index, a parameterized fragment is that text followed by `$i`, and a `hasEquity` fragment does not depend on the index |
| `DatabaseFilters.ExactlyOneMarker` | helpers/databaseFilters.js:78-132 | every fragment except `hasEquity`'s contains exactly one `$` |
| `DatabaseFilters.ClauseAndValueInLockstep` | helpers/databaseFilters.js:19-34 | a `null` fragment binds no value, and a rendered fragment has a marker exactly when its filter binds a value |
| `Placeholders.Placeholder` | helpers/databaseFilters.js:79 | the marker is `$` followed by a decimal numeral |
| `Placeholders.ClauseShape` | helpers/databaseFilters.js:78-80 | `$i` appended to `$`-free text reads back as index `i`, with that text before the marker |
| `Placeholders.MarkerCount` | helpers/databaseFilters.js:78-80 | `$i` appended to `$`-free text gives a string with exactly one `$` |
| `Placeholders.Parameterized` | helpers/databaseFilters.js:78-80 | a parameterized fragment reads back as its comparison text and index |
| `Placeholders.NoDollarNoPlaceholder` | helpers/databaseFilters.js:141-143 | a fragment without `$` (`equity > 0`) refers to no parameter |
| `Decimal.NatToString` | helpers/databaseFilters.js:79 | the index is written as a non-empty run of decimal digits without a leading zero, one digit exactly when it is below 10 |
| `Decimal.ParseNatToString` | helpers/databaseFilters.js:79 | reading the written index back gives the index |
| `Decimal.NatToStringInjective` | helpers/databaseFilters.js:79 | distinct indices are written differently |
| `Decimal.IntToString` | helpers/databaseFilters.js:105 | a number interpolated into `%...%` is written with a leading `-` exactly when it is negative |
| `Decimal.ParseInteger` | helpers/databaseFilters.js:66 | only non-empty text can read as an integer, and only a run of digits with at most one leading sign does; digits read as their value, `-` followed by digits as the negated value, `+` followed by digits as the value; a negative result needs a leading `-`; text starting with anything but a digit or a sign reads as nothing |
| `Decimal.IntegerRoundTrip` | helpers/databaseFilters.js:66 | reading back the decimal text of any integer gives that integer |
| `JsValue.ToNumber` | helpers/databaseFilters.js:66 | `Number(v)` of a number is itself; of a boolean is 1 or 0; of the empty string is 0; of a string that spells an optionally signed decimal integer is that integer; any other string is NaN |
| `JsValue.GreaterThan` | helpers/databaseFilters.js:66 | JavaScript `>` on the two `Number` results: false whenever either side is NaN, otherwise the integer order; never true for equal operands |
| `JsValue.Truthy` | helpers/databaseFilters.js:142 | a value is falsy exactly when it is `0`, the empty string or `false`; for numbers and booleans that is exactly when `Number` gives 0 |
| `JsValue.ToText` | helpers/databaseFilters.js:105 | interpolating a string gives the string itself |
| `JsValue.NumberOfText` | helpers/databaseFilters.js:66 | `Number(String(n))` is `n` for every integer `n` |
| `FilterAssembly.Assemble` | helpers/databaseFilters.js:19-31 | the caller's walk collects exactly the non-null `getValue` results of the filters, in order (which fragment each value is bound in: `AssembleRendersBinders`) |
| `FilterAssembly.AssemblePairsMarkersWithValues` | helpers/databaseFilters.js:19-31 | the markers of the collected fragments are `$start, $start+1, ...` in order, one per collected value, so the k-th value is bound to the k-th marker |
| `FilterAssembly.AssembleRendersBinders` | helpers/databaseFilters.js:19-31 | the k-th fragment with a marker is the comparison of the k-th filter that binds a value, followed by `$(start + k)`, and the k-th collected value is that same filter's value, so each value sits under its own filter's fragment |
| `FilterAssembly.AssembleUnmarkedAreEquity` | helpers/databaseFilters.js:141-143 | every collected fragment without a marker is `equity > 0` |
| `FilterAssembly.StepWithValue` | helpers/databaseFilters.js:19-31 | a filter that binds a value adds its comparison with marker `$index` and its value, and the walk continues at `index + 1` |
| `FilterAssembly.StepWithoutValue` | helpers/databaseFilters.js:22-30 | a filter that binds no value adds no marked fragment and no value, and the walk continues at the same index |
| `FilterAssembly.AssembleWithoutEquity` | helpers/databaseFilters.js:19-31 | without a `hasEquity` filter, every filter contributes exactly one fragment and one value |
| `FilterAssembly.EquityKeepsIndex` | helpers/databaseFilters.js:141-147 | a `hasEquity` filter never takes an index: the walk after it resumes at the same index, and its fragment is collected only when its value is truthy |
| `FilterAssembly.SingleCriterion` | helpers/databaseFilters.js:42-57 | a single known criterion always builds, and it yields one fragment, except a falsy `hasEquity`, which yields none |
| `FilterAssembly.ExampleEmployeeRange` | helpers/databaseFilters.js:42-57 | `{minEmployees: 5, maxEmployees: 10}` builds `[MinEmployees(5), MaxEmployees(10)]` |
| `FilterAssembly.ExampleInvertedRange` | helpers/databaseFilters.js:64-70 | `{minEmployees: 10, maxEmployees: 5}` fails with the BadRequest message |
| `FilterAssembly.ExampleEquityThenName` | helpers/databaseFilters.js:42-57 | `{hasEquity: true, nameLike: "net"}` builds `[HasEquity(true), CompanyNameLike("net")]` |
| `FilterAssembly.ExampleUnknownName` | helpers/databaseFilters.js:50-54 | `{foo: "bar"}` fails with the "not a constructor" error |

## Left out

- JsValue.ToNumber: strings that JavaScript's `Number` converts but that are not an optionally signed run of digits (surrounding whitespace, fractions, exponents, `0x`/`0o`/`0b` prefixes, `Infinity`) read as NaN here. Such a string as an employee bound therefore never fails validation in the model.
- JsValue.ToNumber: JavaScript numbers are doubles, so `Number` rounds integers beyond 2^53 to the nearest double, while the model reads them exactly. With `{minEmployees: "9007199254740993", maxEmployees: "9007199254740992"}` both sides become 9007199254740992 in JavaScript and validation passes; the model's validation fails with BadRequest.
- Numbers are integers. Floating-point values (fractional bounds, `NaN` and `Infinity` passed as numbers) are not modelled.
- Decimal.IntToString: JavaScript writes numbers of magnitude 10^21 and above in exponent notation; the model always writes plain digits.
- Keys inherited from `Object.prototype` are treated like any other name outside the table. In JavaScript, `filterMap["constructor"]` is `Object`, which does construct, so such a key would not throw inside `buildFilters`.
- `%` and `_` inside a user's `nameLike`/`title` text are not escaped by the source. They act as `ILIKE` wildcards; the model treats the pattern only as text.
- The abstract base `getWhereStringPart` that throws (`helpers/databaseFilters.js:25-27`) and the unset `this.value` of the `ILIKE` and `hasEquity` constructors have no counterpart: with a datatype, there is no abstract filter to call.
- The `BadRequestError` class (`expressError`) is not part of this model; it becomes the `BadRequest` error tag with its message.
- Joining the fragments with ` AND `, running the SQL, the HTTP routes, authentication and the database driver are not modelled. `routes/_testCommon.js` is test setup over the database, with no logic to model.
