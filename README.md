# firevel/sortable — a verified model of sort resolution and sort-field validation

firevel/sortable lets an Eloquent model accept a client-supplied sort
specification such as `name,-created_at`. The specification is turned into
`ORDER BY` clauses, and any field the model has not declared sortable is
rejected. This project models three pieces and proves properties about them:

- the `Sortable` trait: the `sort` query scope (`scopeSort`) and `isSortable`;
- the `SortField` validation rule object: `passes`, `message` and the
  `invalidFields` it records;
- what the service provider registers: the `sort_fields` validation closure
  and the replacer that words its message.

Files:

- `php.dfy` (module `Php`) models the PHP built-ins the code relies on, as
  functions on `seq<char>`: `trim`, `ltrim($s, '-')`, `empty()` on a string,
  `explode`, `implode` and `str_replace`. `explode` and `implode` are proved
  inverse to each other (`ImplodeExplode`, `ExplodeImplode`). `trim` and
  `ltrim` are described by the suffix, prefix and infix they keep
  (`TrimLeftSuffix`, `TrimRightPrefix`, `TrimIsInfix`, `StripDashesSuffix`).
  `str_replace` comes with `StrReplaceSkips` and, in the service provider,
  `FillPlaceholder`. `empty()` is a plain definition.
- `sequences.dfy` (module `Sequences`) defines subsequences (order kept) and
  sequences without repetitions.
- `sortable.dfy` (module `Sortable`) has the model configuration (`$sortable`,
  `$defaultSort`), `isSortable` and `scopeSort`. The query builder is the
  class `Query`, whose field `orders` is the list of `orderBy` calls made on
  it. `scopeSort` is a method that takes it, and its effect is proved equal to
  the specification function `Resolve`. That function's properties are lemmas.
- `sort_field.dfy` (module `SortFieldRule`) models the class `SortField`.
  `Passes` rewrites the field `invalidFields` in a loop (`RecordRejected`) and
  is proved to leave exactly `InvalidFields(...)` there. `Message` words the error from that
  field.
- `service_provider.dfy` (module `SortableServiceProvider`) has the closure,
  which stops at the first bad token, and a method proving that the closure
  and the rule object reach the same verdict whenever `$parameters[0]` names
  a class. It also has the replacer.

Runtime reflection is a registry `map<string, ModelClass>`. A class name is a
key when `class_exists` holds, and `hasIsSortable` says whether
`method_exists($model, 'isSortable')` holds. `Str::slug($name, '_')` is a
parameter `slug: string -> string` about which nothing is assumed.

## Model

| member | source | states |
|---|---|---|
| Php.IsEmpty | src/SortField.php:66 | definition: `empty()` on a string holds for "" and "0"; the ensures of `Normalize` and `NormalizeFiltersTrimmed` state that no checked token is empty |
| Php.TrimLeft | src/SortField.php:64 | removing leading trim characters never lengthens the string, and what is left starts with no trim character |
| Php.TrimLeftSuffix | src/SortField.php:64 | what is left of the input is a suffix of it, and every character removed is in `trim`'s set |
| Php.TrimRight | src/SortField.php:64 | removing trailing trim characters never lengthens the string, and what is left ends with no trim character |
| Php.TrimRightPrefix | src/SortField.php:64 | what is left of the input is a prefix of it, and every character removed is in `trim`'s set |
| Php.Trim | src/SortField.php:64 | the result neither starts nor ends with a trim character |
| Php.TrimIsInfix | src/SortField.php:64 | the result of `trim` is an infix of the input with only trim characters before and after it |
| Php.TrimIdempotent | src/SortField.php:64 | trimming a trimmed string changes nothing |
| Php.StripDashes | src/Sortable.php:44 | `ltrim($s, '-')` never lengthens the string, and what is left does not start with '-' |
| Php.StripDashesSuffix | src/Sortable.php:44 | what is left of the input is a suffix of it, and only '-' characters were removed |
| Php.Explode | src/SortField.php:59 | `explode(',')` gives at least one piece, and no piece contains the delimiter |
| Php.ImplodeExplode | src/SortField.php:59 | joining the exploded pieces with the delimiter restores the string |
| Php.ExplodePrefix | src/SortField.php:59 | a delimiter-free piece followed by the delimiter is split off as the first piece |
| Php.ExplodeImplode | src/SortField.php:59 | delimiter-free pieces are recovered by exploding their implosion |
| Php.Implode | src/SortField.php:89 | definition of `implode`; `ImplodeExplode` and `ExplodeImplode` prove it the inverse of `Explode`, and `ImplodeContains` that every piece occurs in the result |
| Php.InfixShift | src/SortField.php:89-93 | helper for the message lemmas: an occurrence survives putting text before and after the string |
| Php.ImplodeContains | src/SortField.php:89-93 | every piece occurs in the imploded string |
| Php.StrReplace | src/SortableServiceProvider.php:58 | definition of `str_replace`; `StrReplaceSkips` and `FillPlaceholder` state how it fills a template with a single placeholder |
| Php.StrReplaceSkips | src/SortableServiceProvider.php:58 | a prefix without the first character of the search string is copied unchanged |
| Sequences.SubseqMembers | src/Sortable.php:31 | generic helper: every element of a subsequence is an element of the whole |
| Sequences.SubseqDropLast | src/SortField.php:70-72 | generic helper: dropping the last element of a subsequence leaves a subsequence |
| Sequences.SubseqExtend | src/SortField.php:70-72 | generic helper: a subsequence stays one when the whole grows at its end |
| Sequences.DistinctCount | src/Sortable.php:27-31 | generic helper: in a repetition-free sequence every value occurs at most once |
| Sortable.IsSortable | src/Sortable.php:58-67 | definition of `isSortable`; `IsSortableMeaning` gives an independent reading of it and `IsSortableIgnoresSign` shows it ignores a leading '-' |
| Sortable.IsSortableMeaning | src/Sortable.php:58-67 | `isSortable(f)` holds iff f is a run of '-' followed by an allow-listed name that does not start with '-' |
| Sortable.IsSortableIgnoresSign | src/Sortable.php:64-66 | prefixing '-' never changes whether a field is sortable |
| Sortable.Extended | src/Sortable.php:27-30 | the doubled allow-list is twice as long, and it holds exactly the base names and '-' followed by a base name |
| Sortable.Intersect | src/Sortable.php:31 | `array_intersect` keeps the order of its first argument, keeps an entry exactly as often as it occurs there when the second argument has it, and drops it otherwise |
| Sortable.IntersectMembershipOnly | src/Sortable.php:31 | `array_intersect` depends only on which values its second argument holds |
| Sortable.IntersectAll | src/Sortable.php:31 | intersecting with a list holding everything gives the first argument back |
| Sortable.Selection | src/Sortable.php:23-40 | an empty allow-list selects nothing, and the selection is a subsequence of the doubled allow-list |
| Sortable.SelectionSource | src/Sortable.php:31-36 | if some requested token is on the doubled list, the selection is exactly the tokens found in both; otherwise it is exactly the listed tokens of `$defaultSort` |
| Sortable.RequestOrderIrrelevant | src/Sortable.php:31 | requests with the same set of tokens produce the same directives, whatever their order or repetition |
| Sortable.RequestEverything | src/Sortable.php:27-31 | requesting every token yields the whole doubled allow-list, in order |
| Sortable.SubseqAscendingFirst | src/Sortable.php:27-31 | generic helper: a subsequence of a list with the ascending tokens first has them first too |
| Sortable.AscendingBeforeDescending | src/Sortable.php:27-36 | with a bare allow-list every ascending directive precedes every descending one |
| Sortable.SelectionDistinct | src/Sortable.php:27-36 | with a bare allow-list without repetitions, no token is selected twice |
| Sortable.SelectedAreSortable | src/Sortable.php:27-47 | with a bare allow-list, every token `scopeSort` selects passes `isSortable` |
| Sortable.SortableRequestIsSelected | src/Sortable.php:27-31 | a requested token with at most one leading '-' that passes `isSortable` is selected |
| Sortable.DoubleDashSortableButIgnored | src/Sortable.php:27-31 | "--f" passes `isSortable` for an allowed f, but a request for it alone sorts nothing when there is no default |
| Sortable.ExtendedSingleton | src/Sortable.php:27-30 | helper: a one-entry allow-list f doubles to f, -f |
| Sortable.IntersectSingleton | src/Sortable.php:31 | helper: intersecting f, -f with the request f keeps f alone |
| Sortable.DashedEntrySelectedButNotSortable | src/Sortable.php:27-31 | an allow-list entry "-f" is selected when "-f" is requested, yet `isSortable("-f")` is false |
| Sortable.ToDirective | src/Sortable.php:43-46 | definition of one token's `orderBy` call; `SameColumnBothDirections` and `DirectiveTargetsAllowedColumn` state its column and direction |
| Sortable.Directives | src/Sortable.php:42-47 | definition: one directive per token, in order; `ApplyDirectives` is proved to append exactly these |
| Sortable.Resolve | src/Sortable.php:21-50 | definition of the directives `scopeSort` adds; the ensures of `ScopeSort` ties the method to it, and `RequestOrderIrrelevant` and `DirectiveTargetsAllowedColumn` describe it |
| Sortable.DirectiveTargetsAllowedColumn | src/Sortable.php:42-47 | each directive sorts the slug of an allowed field: ascending for the token f, descending for -f |
| Sortable.SameColumnBothDirections | src/Sortable.php:43-46 | f and -f order by the same column, in opposite directions |
| Sortable.Query.constructor | src/Sortable.php:21 | a fresh query has no ORDER BY clauses |
| Sortable.Query.OrderBy | src/Sortable.php:46 | `orderBy` appends one clause and changes nothing else |
| Sortable.ExtendAllowList | src/Sortable.php:27-30 | the doubling loop produces `Extended` of the allow-list |
| Sortable.SelectSortingAttributes | src/Sortable.php:27-36 | for a non-empty allow-list it computes `Selection` |
| Sortable.ApplyDirectives | src/Sortable.php:42-47 | the query's clauses become the old ones followed by one directive per selected token, in order |
| Sortable.ScopeSort | src/Sortable.php:21-50 | the query's clauses become the old ones followed by `Resolve` of the model and request; with nothing selected the query is untouched |
| SortFieldRule.Fields | src/SortField.php:58-59 | an array is taken as it is; a string gives at least one field, and joining the fields with ',' restores it |
| SortFieldRule.StringAndArrayFormsAgree | src/SortField.php:58-59 | the comma-joined string of comma-free fields yields the same fields as the array |
| SortFieldRule.Normalize | src/SortField.php:63-68 | no more tokens than fields, and no checked token is "" or "0" |
| SortFieldRule.NormalizeKeeps | src/SortField.php:63-68 | every field whose trimmed form is not empty is checked |
| SortFieldRule.NormalizeFrom | src/SortField.php:63-68 | every checked token is the trimmed form of some field |
| SortFieldRule.NormalizeFiltersTrimmed | src/SortField.php:63-68 | the checked tokens are the trimmed fields in input order with the empty ones ("" or "0") taken out; every other trimmed field is kept exactly as often as it occurs |
| SortFieldRule.NormalizedTokensAreTrimmed | src/SortField.php:64 | every checked token is already trimmed |
| SortFieldRule.Rejected | src/SortField.php:70-72 | the recorded tokens are a subsequence of the checked tokens |
| SortFieldRule.RejectedCounts | src/SortField.php:70-72 | a token is recorded as often as it occurs when `isSortable` rejects it, and never otherwise |
| SortFieldRule.AllSortable | src/SortableServiceProvider.php:42-54 | definition: every checked token passes `isSortable`; `FieldsAllSortable` and `NoneRejectedIffAllSortable` tie it to the closure and to the rule object |
| SortFieldRule.NoneRejectedIffAllSortable | src/SortField.php:75 | nothing is recorded exactly when every checked token is sortable |
| SortFieldRule.InvalidFields | src/SortField.php:59-73 | definition of the tokens `passes` records for a value; the ensures of `Passes` puts it in `invalidFields`, and `RejectedCounts` with `NormalizeFiltersTrimmed` fixes its contents |
| SortFieldRule.NotAllowedMessage | src/SortField.php:83-94 | definition of `message()`'s text; `MessageNamesEveryField`, `MessageForOneField`, `MessageForTwoFields` and `MessageForNoFields` describe it |
| SortFieldRule.MessageNamesField | src/SortField.php:83-94 | the message contains the recorded field at a given position, in single quotes |
| SortFieldRule.MessageNamesEveryField | src/SortField.php:83-94 | the message names every recorded field, in single quotes |
| SortFieldRule.MessageForOneField | src/SortField.php:85-87 | one recorded field gives "The sort field 'f' is not allowed." |
| SortFieldRule.MessageForTwoFields | src/SortField.php:89-93 | two recorded fields are listed in order, quoted and separated by ", " |
| SortFieldRule.MessageForNoFields | src/SortField.php:89-93 | with nothing recorded the plural message has an empty list |
| SortFieldRule.SortField.constructor | src/SortField.php:34-37 | the rule holds the class name and has recorded nothing |
| SortFieldRule.SortField.RecordRejected | src/SortField.php:61-73 | `invalidFields` becomes exactly the rejected checked tokens, in order |
| SortFieldRule.SortField.Passes | src/SortField.php:46-76 | without a usable class: false, and `invalidFields` is kept. Otherwise `invalidFields` becomes every rejected token in order, and the rule passes iff there are none |
| SortFieldRule.SortField.Message | src/SortField.php:83-94 | the message names every field recorded by the last `passes` |
| SortableServiceProvider.NamesModel | src/SortableServiceProvider.php:23-25 | definition: `$parameters[0]` is set and not empty; `SortFields` fails without it and `RuleAndClosureAgree` assumes it of the caller |
| SortableServiceProvider.ResolvesModel | src/SortableServiceProvider.php:23-37 | definition: in addition the named class exists and has an `isSortable` method; the ensures of `SortFields` make it necessary for passing |
| SortableServiceProvider.SortFields | src/SortableServiceProvider.php:22-55 | fails without a non-empty `$parameters[0]`, an existing class and an `isSortable` method; otherwise passes iff every checked token is sortable |
| SortableServiceProvider.FieldsAllSortable | src/SortableServiceProvider.php:42-54 | the `foreach` returns true exactly when every checked token passes `isSortable` |
| SortableServiceProvider.RuleAndClosureAgree | src/SortableServiceProvider.php:22-55 | when a class name is given, the closure and a fresh `SortField` for that class reach the same verdict on every value; when the class resolves, the rule has recorded exactly `InvalidFields` of the value, and the closure passes iff that record is empty |
| SortableServiceProvider.FillPlaceholder | src/SortableServiceProvider.php:58 | replacing the only occurrence of a placeholder puts the value in its place |
| SortableServiceProvider.ReplaceMessage | src/SortableServiceProvider.php:57-59 | the message is "The " + attribute + " contains invalid sort fields.", whatever the other arguments |

## Left out

- `Str::slug` is a parameter of the model. Its lower-casing and separator
  rules are not modelled, and no property depends on them.
- The Eloquent query builder is only the list of `orderBy` calls made on it.
  Building and running SQL is not modelled.
- `class_exists`, `new $modelClass` and `method_exists` are modelled by a
  registry lookup. A model that defines its own `isSortable` is assumed to
  use the trait's. Autoloading and a constructor that throws are not
  modelled.
- `Validator::extend` and `Validator::replacer` themselves (the
  registration) are not modelled. The closure and the replacer they register
  are.
- `in_array` in `isSortable` compares loosely (`==`) in PHP, so there "1"
  and "01" are equal; the model uses string equality and treats them as
  distinct. `array_intersect` in `scopeSort` compares the string forms
  strictly, which is exactly the model's equality. So with numeric field
  names `isSortable` can accept a token such as "01" that `scopeSort` then
  drops; the model does not show this.
- `array_intersect` keeps the keys of its first argument. Only the order of
  the values is modelled, because the `foreach` that follows ignores keys.
- Values that are neither strings nor arrays, and array elements that are not
  strings, are not modelled. `trim` and `explode` would convert or reject
  them.
- `trim` is modelled on characters, not bytes, with PHP's default set
  " \t\n\r\0\x0B".
- `$defaultSort` not being declared is modelled as an empty default.
- The replacer ignores its `$message`, `$rule` and `$parameters`. The model
  takes them and proves that the result does not depend on them.

## Behaviour of the code worth knowing

- Directives come in the order of the doubled allow-list. For a bare
  allow-list, that means every ascending entry in allow-list order, then
  every descending one. They do not follow
  the order of the request, nor the order of `$defaultSort`. See
  `AscendingBeforeDescending` and `RequestOrderIrrelevant`.
- An allow-list entry that itself starts with '-', such as "-a", is selected
  by `scopeSort` when "-a" is requested, yet `isSortable("-a")` is false,
  because `ltrim` leaves "a", which is not listed
  (`DashedEntrySelectedButNotSortable`). That is why `SelectedAreSortable`
  assumes a bare allow-list.
- `scopeSort` does not trim the requested tokens, so " name" matches nothing.
- `isSortable` strips every leading '-', so "--name" passes validation while
  `scopeSort` ignores it. See `DoubleDashSortableButIgnored`.
- Both validation variants ship. The registered closure stops at the first
  rejected token, and the `SortField` object records every rejected token.
  Whenever `$parameters[0]` names a class they agree on the verdict
  (`RuleAndClosureAgree`).
- A repeated token is recorded once per occurrence by `SortField`. In
  `scopeSort` the number of copies follows the allow-list, not the request.
- A token that trims to "0" is skipped like an empty one, because PHP's
  `empty("0")` is true.
