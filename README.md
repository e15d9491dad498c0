# classInfo: the class report of test.js

test.js builds a report of school classes from two kinds of HTTP
responses. The first is the class list: an array of three-character
identifiers such as `01A`, two digits for the year and a capital letter.
The second is one size response per class, whose `count` is the number of
pupils. The report, `classInfo` (test.js:40-45), holds the same classes in
two ways:

- flat, as `classesList` (input order) and `classes` (name to record);
- grouped by year, as `yearsList` (years in order of first appearance) and
  `years`, where each year record has its own `classList` and `classes`.

The year's `classes[name]` is the very object held in the flat
`classes[name]`, so a count written through one index is seen through the
other.

The model has five modules:

- `Json`: the parsed response bodies. A number is kept in the decimal form
  ECMAScript prints it from: a sign, its shortest digit string and the
  position of the decimal point, or an infinity.
- `JsString`: ECMAScript's conversion of a value to a string, which
  `RegExp.prototype.test` applies to its argument. Arrays are joined with
  ',', a null element giving "". An object converts to "[object Object]",
  unless it has its own "toString" key: that key holds data, not a
  function, so the conversion throws a TypeError.
- `ClassNames`: the identifier pattern `/^[0-9][0-9][A-Z]$/`, and the test
  with its three outcomes: match, no match, or a throw.
- `Grouping`: specification functions for the year grouping. `YearsOf` gives
  the years in order of first appearance, `Members` one year's names in
  input order, and `Grouped` the concatenation of the groups.
- `Report`: the `ClassInfo` class with the two response handlers.

The shared record object is modelled by an arena. `records` holds every
record ever created; both the flat and the per-year `classes` maps hold a
handle into it. `Valid` says the two handles for a name are equal. A
class name that appears twice gets a new record, as `classes[name] = {...}`
does in the source, and both indices move to it; the old record stays in
the arena, unreferenced.

`processClassList` works as follows:

- A transport error, a status other than 200 or a body that is not an array
  returns false and leaves the report unchanged.
- Otherwise the elements are added in order until the first one that does
  not pass the pattern. There the function returns false and keeps what it
  already added (no rollback).
- The bounded fan-out starts over `classesList` only when every element was
  added.
- `test` turns its argument into a string first. An array holding one
  class-name string passes the pattern and then throws at `.substr`. An
  object with its own "toString" key, or an array holding one at any
  depth, throws inside `test` itself. Names added before either throw stay.

The size callback reads `data.count` before it looks at the error, so a
`null` body throws. It writes the count only when the response has no
error, has status 200 and carries an integral `count`. Any integer is
accepted, negative ones included. Responses complete in any order. The
model applies them as a sequence, and `CompletionOrderIrrelevant` shows
that the order does not change the report when the names are distinct and
nothing throws.

The model follows the code where a reader of its intent might expect
otherwise:

- A negative count is accepted.
- After an invalid identifier, the names added before it stay in the report.
- A size response that fails never calls the completion callback.

## Model

| member | source | states |
|---|---|---|
| ClassNames.ClassNameShape | test.js:62 | a string matches the pattern iff it has exactly three characters: two decimal digits, then a capital letter from A to Z |
| JsString.JsToStringThrows | test.js:83 | converting an element to a string throws exactly on an object with its own "toString" key, or an array holding one at any depth |
| JsString.JoinPrefixThrows | test.js:83 | joining an array's first elements throws exactly when one of them throws |
| JsString.NumberTextShape | test.js:83 | a number converts to "Infinity", "-Infinity" or text made only of digits, '.', 'e', '+' and '-' |
| ClassNames.NumberNeverClassName | test.js:83 | no number passes the pattern test |
| ClassNames.NoCommaInClassName | test.js:83 | a class name holds no ',', so no array of two or more elements passes the test |
| ClassNames.TestValueShape | test.js:83 | the test throws exactly where the conversion does; it matches exactly a class-name string, or an array of exactly one element that itself matches |
| ClassNames.ClassYear | test.js:87 | the year `substr(0,2)` of a class name is its first two characters, both digits |
| Report.AcceptedNames | test.js:81-85 | the names the loop adds are the longest prefix of the list made of class-name strings, in order; the element after that prefix is not a class-name string |
| Report.FanOutIffAllNames | test.js:81-105 | the fan-out starts iff every element of the list is a class-name string; the loop throws iff, after a run of class-name strings, the next element's conversion throws or it is an array that passes the test |
| Report.CheckSize | test.js:114-120 | a null body throws whatever else holds; otherwise the count is accepted iff there is no error, the status is 200 and `count` is an integer (`CountField`, `Number.isInteger` of test.js:116), and it is that integer; each rejection carries the first failing check, in source order |
| Report.WriteCount | test.js:123 | writing a count changes the count of exactly the record at the handle and nothing else in the arena |
| Report.FileAllIndexed | test.js:86-99 | adding any sequence of class names keeps both indices in step with `classesList`: years in first-appearance order, each year's names in input order, shared handles |
| Report.FileAllAppends | test.js:90-91 | adding names appends them to `classesList` and one fresh `{name}` record per name to the arena, leaving the older records as they were |
| Report.FileAllHandles | test.js:91-99 | after adding names, each added name leads to a fresh record holding that name and no count; every other name keeps its handle |
| Report.FileAllLastHandle | test.js:91 | a name added more than once leads to the record created for its last occurrence |
| Report.FileAllFacts | test.js:86-99 | adding names to an indexed report gives an indexed report that extends it (all of the above together) |
| Report.IndexedAdd | test.js:90-99 | one turn of the loop (`FileClass` files the name under its year, test.js:93-99) keeps both indices in step: the year record is created and listed on first sight, the name pushed to its year's list, and the same handle stored in both maps |
| Report.YearsIndexedAdd | test.js:93-99 | one turn of the loop keeps `yearsList` equal to the years in first-appearance order, and every year record equal to its names in input order |
| Report.FileNames | test.js:81-100 | the loop adds the accepted prefix of the list in order and ends as `ListEnd` says (a throw in the test, a rejection, or a throw at `substr`), leaving the report indexed and extended by exactly those names |
| Report.ProcessList | test.js:70-107 | the three early checks return false, in source order, with the report unchanged; an array body adds its accepted prefix without rollback, and the fan-out starts over the whole `classesList` only when every element was added |
| Report.ClassInfo.constructor | test.js:40-45 | the report starts empty and indexed |
| Report.ClassInfo.ProcessClassList | test.js:70-107 | the same as `ProcessList`, on the object's fields: the rejections leave the object unchanged, and the report stays indexed |
| Report.ClassInfo.YearView | test.js:99 | a class reached through its year's `classes` is in the flat index, under the year of its name, and is the same record as `classes[name]` |
| Report.ClassInfo.ClassFiled | test.js:93-99 | every class in the flat index is filed under its year's record |
| Report.ClassInfo.ApplyClassSize | test.js:112-125 | the callback's outcome is `CheckSize`; only an accepted count is written, into the one record both indices share, so it is seen through `classes[name]` and `years[year].classes[name]` alike |
| Report.ClassInfo.ApplyClassSizes | test.js:105-125 | size responses applied in completion order give the arena of `ApplyAll`; a throw stops everything after it and is reported |
| Report.ApplySizes | test.js:112-125 | the loop over size responses in completion order computes `ApplyAll` of them, and reports a throw iff some response throws |
| Report.ApplyAllKeepsNames | test.js:123 | handling size responses changes counts only: the arena keeps its length and every record its name |
| Report.ApplyAllAt | test.js:123 | when nothing throws, each record ends up with the last accepted count addressed to it, or as it was |
| Report.WrittenByMember | test.js:123 | when no two responses address the same record, the count left at a record is the one accepted response addressed to it, wherever it stands |
| Report.CompletionOrderIrrelevant | test.js:105-123 | any two completion orders of the same responses, with distinct names and no throw, give the same report |
| Report.ClassInfo.SizesOrderIrrelevant | test.js:105-123 | on the report's own index, where distinct names never share a record, any two completion orders of the same responses for distinct classes, none throwing, give the same counts |
| Grouping.YearsOfDistinct | test.js:93-95 | `yearsList` never holds a year twice |
| Grouping.YearsOfElements | test.js:93-95 | a year is in `yearsList` iff some listed class belongs to it |
| Grouping.YearsOfPrefix | test.js:93-95 | the years of a prefix of the class list are a prefix of its years, so years keep the order in which they first appear |
| Grouping.MembersCount | test.js:98 | a year's `classList` holds each class of that year as often as `classesList` does, and no class of another year |
| Grouping.MembersPrefix | test.js:98 | the members of a prefix of the class list are a prefix of the members, so a year's list keeps input order |
| Grouping.GroupsPartition | test.js:93-98 | the years' class lists, taken in `yearsList` order, together hold exactly the classes of `classesList` (as a multiset) |

## Left out

- HTTP requests, `JSON.parse` and the `response && response.statusCode` expression are not modelled. Each handler takes an error flag, a status code and an already-parsed body. A body that does not parse, including the missing body of a failed request, throws in the source before any check runs; the model does not capture that throw.
- `async.eachLimit` scheduling and its limit of three requests at once are not modelled. Responses are a sequence in completion order.
- A failed size response never calls its callback. It holds one of the three slots forever, and `processListComplete` never runs. The model records the failure as an outcome and does not model the stall.
- `processListComplete`, all `console.log` output, `setTimeout` and the express stub server are left out. They only print or serve data.
- `JSON.parse` turning number text into a double is not modelled. A number arrives already in the decimal form ECMAScript prints it from, so the rounding of long literals (a count above 2^53, say) is outside the model. The model leaves `NaN` out, since JSON text cannot produce it.
