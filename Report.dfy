/**
 * The `classInfo` report of test.js and the two response handlers that
 * fill it: `processClassList` (the list response) and the callback inside
 * `getClassSize` (one class-size response).
 *
 * The source shares one record object between `classes[name]` and
 * `years[year].classes[name]`. Here the records live in an arena,
 * `records`, and both indices hold a handle into it; `Valid` states that
 * the two handles for a name are the same, so a count written through one
 * index is read through the other.
 */
module Report {
  import opened Json
  import opened JsString
  import opened ClassNames
  import opened Grouping

  /** `{name, count}`: a class record; `count` is absent until a size
      response has been applied to it. */
  datatype ClassRecord = ClassRecord(name: string, count: Option<int>)

  /** The position of a class record in the arena. */
  type Handle = nat

  /** `{name, classList, classes}` for one year. Nothing else refers to a
      year record, so it is kept as a value. */
  datatype YearRecord = YearRecord(name: string, classList: seq<string>, classes: map<string, Handle>)

  /** Why a response was turned away (each is a distinct log line). */
  datatype Failure =
    | TransportError
    | HttpStatus(code: int)
    | BadContent
    | BadClassName(value: Json)

  /** How list processing ends: the bounded fan-out started over `queue`,
      the function returned false, or a TypeError was thrown. */
  datatype ListOutcome =
    | FanOutStarted(queue: seq<string>)
    | ListRejected(why: Failure)
    | ListThrew

  /** How one size response ends: the count was written (and the
      completion callback called), the callback returned without calling
      it, or a TypeError was thrown. */
  datatype SizeOutcome =
    | Counted(count: int)
    | SizeRejected(why: Failure)
    | SizeThrew

  /** The longest prefix of the list's elements that are class-name
      strings, as names: the ones the loop adds before it stops. */
  function AcceptedNames(items: seq<Json>): (names: seq<string>)
    ensures |names| <= |items|
    ensures forall i :: 0 <= i < |names| ==> items[i] == JString(names[i]) && IsClassName(names[i])
    ensures |names| < |items| ==> !(items[|names|].JString? && IsClassName(items[|names|].s))
  {
    if items == [] then []
    else if items[0].JString? && IsClassName(items[0].s) then [items[0].s] + AcceptedNames(items[1..])
    else []
  }

  /** How the loop over `items` ends, given the class list it leaves: at
      the first element that is not a class-name string, the test either
      throws, rejects it, or accepts it and `substr` then throws. */
  function ListEnd(items: seq<Json>, classesList: seq<string>): ListOutcome
  {
    var k := |AcceptedNames(items)|;
    if k == |items| then FanOutStarted(classesList)
    else
      match TestValue(items[k])
      case NoMatch => ListRejected(BadClassName(items[k]))
      case _ => ListThrew
  }

  /** Every element before `k` is a class-name string. */
  ghost predicate NamesBefore(items: seq<Json>, k: nat)
    requires k <= |items|
  {
    forall i :: 0 <= i < k ==> items[i].JString? && IsClassName(items[i].s)
  }

  /**
   * The fan-out starts exactly when every element of the list is a
   * class-name string. The loop throws exactly when, after a run of
   * class-name strings, the next element's string conversion throws (an
   * object with its own "toString" key, at any depth of arrays) or it is
   * an array that passes the test and has no `substr`.
   */
  lemma FanOutIffAllNames(items: seq<Json>, classesList: seq<string>)
    ensures ListEnd(items, classesList).FanOutStarted? <==> NamesBefore(items, |items|)
    ensures ListEnd(items, classesList).ListThrew? <==>
      exists k :: 0 <= k < |items| && NamesBefore(items, k) &&
        (ToStringThrows(items[k]) || (items[k].JArray? && TestValue(items[k]) == Match))
  {
    var names := AcceptedNames(items);
    var end := ListEnd(items, classesList);
    if |names| < |items| {
      TestValueShape(items[|names|]);
      assert !NamesBefore(items, |items|);
      if end.ListThrew? {
        assert NamesBefore(items, |names|);
      }
    }
    forall k | 0 <= k < |items| && NamesBefore(items, k) &&
               (ToStringThrows(items[k]) || (items[k].JArray? && TestValue(items[k]) == Match))
      ensures end.ListThrew?
    {
      TestValueShape(items[k]);
      assert |names| == k;
    }
  }

  /** `Number.isInteger(data.count)`, and the count when it holds. */
  function CountField(payload: Json): Option<int>
  {
    match payload
    case JObject(fields) =>
      if "count" in fields && fields["count"].JNumber? && IsInteger(fields["count"].n)
      then Some(IntValue(fields["count"].n))
      else None
    case _ => None
  }

  /** The checks of a size response. `data.count` is read before the error
      is looked at, so a null body throws whatever else holds. */
  function CheckSize(error: bool, code: int, payload: Json): (r: SizeOutcome)
    ensures r.SizeThrew? <==> payload.JNull?
    ensures r.Counted? <==> !payload.JNull? && !error && code == 200 && CountField(payload).Some?
    ensures r.Counted? ==> r.count == CountField(payload).value
    ensures r.SizeRejected? ==>
      r.why == (if error then TransportError else if code != 200 then HttpStatus(code) else BadContent)
  {
    if payload.JNull? then SizeThrew
    else if error then SizeRejected(TransportError)
    else if code != 200 then SizeRejected(HttpStatus(code))
    else if CountField(payload).None? then SizeRejected(BadContent)
    else Counted(CountField(payload).value)
  }

  /** `classes[name].count = c` on the record at handle `h`. */
  function WriteCount(records: seq<ClassRecord>, h: Handle, c: int): (r: seq<ClassRecord>)
    ensures |r| == |records|
    ensures forall k :: 0 <= k < |r| ==>
      r[k] == if k == h then records[k].(count := Some(c)) else records[k]
  {
    if h < |records| then records[h := records[h].(count := Some(c))] else records
  }

  /** The flat index: `classes` has a key for each listed name, whose
      handle leads to a record of that name. */
  ghost predicate ClassesIndexed(classes: map<string, Handle>, classesList: seq<string>, records: seq<ClassRecord>)
  {
    && (forall i :: 0 <= i < |classesList| ==> IsClassName(classesList[i]))
    && (forall i :: 0 <= i < |classesList| ==> classesList[i] in classes)
    && (forall n :: n in classes ==> n in classesList && classes[n] < |records| && records[classes[n]].name == n)
  }

  /** One year's record: its name, its names in input order, and for each
      of them the same handle as the flat index. */
  ghost predicate YearFiled(record: YearRecord, year: string, classesList: seq<string>, classes: map<string, Handle>)
  {
    && record.name == year
    && record.classList == Members(classesList, year)
    && (forall i :: 0 <= i < |record.classList| ==> record.classList[i] in record.classes)
    && (forall n :: n in record.classes ==>
          n in record.classList && Year(n) == year && n in classes && record.classes[n] == classes[n])
  }

  /** The grouped index: the years in order of first appearance, each with
      a record. */
  ghost predicate YearsIndexed(years: map<string, YearRecord>, yearsList: seq<string>,
                               classesList: seq<string>, classes: map<string, Handle>)
  {
    && yearsList == YearsOf(classesList)
    && (forall i :: 0 <= i < |yearsList| ==> yearsList[i] in years)
    && (forall y :: y in years ==> y in yearsList && YearFiled(years[y], y, classesList, classes))
  }

  /** `years` once `name` is filed under its year with handle `h`, the
      year's record being created first if needed (test.js:93-99). */
  function FileClass(years: map<string, YearRecord>, name: string, h: Handle): map<string, YearRecord>
  {
    var year := Year(name);
    var record := if year in years then years[year] else YearRecord(year, [], map[]);
    years[year := record.(classList := record.classList + [name], classes := record.classes[name := h])]
  }

  /** Filing a name keeps every year and adds the name's own. */
  lemma FileClassKeys(years: map<string, YearRecord>, name: string, h: Handle)
    ensures forall y :: y in FileClass(years, name, h) <==> y in years || y == Year(name)
  {
  }

  lemma ClassesIndexedAdd(classes: map<string, Handle>, classesList: seq<string>, records: seq<ClassRecord>, name: string)
    requires ClassesIndexed(classes, classesList, records) && IsClassName(name)
    ensures ClassesIndexed(classes[name := |records|], classesList + [name], records + [ClassRecord(name, None)])
  {
  }

  lemma YearFiledOther(record: YearRecord, year: string, classesList: seq<string>,
                       classes: map<string, Handle>, name: string, h: Handle)
    requires YearFiled(record, year, classesList, classes) && Year(name) != year
    ensures YearFiled(record, year, classesList + [name], classes[name := h])
  {
  }

  lemma YearFiledSame(record: YearRecord, year: string, classesList: seq<string>,
                      classes: map<string, Handle>, name: string, h: Handle)
    requires YearFiled(record, year, classesList, classes) && Year(name) == year
    ensures YearFiled(record.(classList := record.classList + [name], classes := record.classes[name := h]),
                      year, classesList + [name], classes[name := h])
  {
  }

  lemma YearsListAdd(years: map<string, YearRecord>, yearsList: seq<string>,
                     classesList: seq<string>, classes: map<string, Handle>, name: string)
    requires YearsIndexed(years, yearsList, classesList, classes)
    ensures YearsOf(classesList + [name]) == if Year(name) in years then yearsList else yearsList + [Year(name)]
  {
  }

  lemma FreshYearFiled(years: map<string, YearRecord>, yearsList: seq<string>,
                       classesList: seq<string>, classes: map<string, Handle>, year: string)
    requires YearsIndexed(years, yearsList, classesList, classes) && year !in years
    ensures YearFiled(YearRecord(year, [], map[]), year, classesList, classes)
  {
    forall i | 0 <= i < |classesList| ensures Year(classesList[i]) != year {
      YearsOfElements(classesList, year);
    }
    MembersOfAbsentYear(classesList, year);
  }

  lemma YearFiledAdd(years: map<string, YearRecord>, yearsList: seq<string>,
                     classesList: seq<string>, classes: map<string, Handle>, name: string, h: Handle, y: string)
    requires YearsIndexed(years, yearsList, classesList, classes) && y in FileClass(years, name, h)
    ensures YearFiled(FileClass(years, name, h)[y], y, classesList + [name], classes[name := h])
  {
    var year := Year(name);
    if y == year {
      if year !in years {
        FreshYearFiled(years, yearsList, classesList, classes, year);
        YearFiledSame(YearRecord(year, [], map[]), year, classesList, classes, name, h);
      } else {
        YearFiledSame(years[year], year, classesList, classes, name, h);
      }
    } else {
      YearFiledOther(years[y], y, classesList, classes, name, h);
    }
  }

  lemma YearsListCovered(years: map<string, YearRecord>, yearsList: seq<string>,
                         classesList: seq<string>, classes: map<string, Handle>, name: string, h: Handle)
    requires YearsIndexed(years, yearsList, classesList, classes)
    ensures var yearsList' := if Year(name) in years then yearsList else yearsList + [Year(name)];
      forall i :: 0 <= i < |yearsList'| ==> yearsList'[i] in FileClass(years, name, h)
  {
    FileClassKeys(years, name, h);
  }

  lemma YearsFiledAdd(years: map<string, YearRecord>, yearsList: seq<string>,
                      classesList: seq<string>, classes: map<string, Handle>, name: string, h: Handle)
    requires YearsIndexed(years, yearsList, classesList, classes)
    ensures var years', yearsList' := FileClass(years, name, h), if Year(name) in years then yearsList else yearsList + [Year(name)];
      forall y :: y in years' ==> y in yearsList' && YearFiled(years'[y], y, classesList + [name], classes[name := h])
  {
    var years' := FileClass(years, name, h);
    FileClassKeys(years, name, h);
    forall y | y in years'
      ensures y in (if Year(name) in years then yearsList else yearsList + [Year(name)])
      ensures YearFiled(years'[y], y, classesList + [name], classes[name := h])
    {
      YearFiledAdd(years, yearsList, classesList, classes, name, h, y);
    }
  }

  lemma YearsIndexedAdd(years: map<string, YearRecord>, yearsList: seq<string>,
                        classesList: seq<string>, classes: map<string, Handle>, name: string, h: Handle)
    requires YearsIndexed(years, yearsList, classesList, classes)
    ensures YearsIndexed(FileClass(years, name, h),
                         if Year(name) in years then yearsList else yearsList + [Year(name)],
                         classesList + [name], classes[name := h])
  {
    YearsListAdd(years, yearsList, classesList, classes, name);
    YearsListCovered(years, yearsList, classesList, classes, name, h);
    YearsFiledAdd(years, yearsList, classesList, classes, name, h);
  }

  /** The invariant of the report: both indices agree with `classesList`. */
  ghost predicate Indexed(years: map<string, YearRecord>, classes: map<string, Handle>, yearsList: seq<string>,
                          classesList: seq<string>, records: seq<ClassRecord>)
  {
    ClassesIndexed(classes, classesList, records) && YearsIndexed(years, yearsList, classesList, classes)
  }

  /** Adding one class name keeps the report indexed. */
  lemma IndexedAdd(years: map<string, YearRecord>, classes: map<string, Handle>, yearsList: seq<string>,
                   classesList: seq<string>, records: seq<ClassRecord>, name: string)
    requires Indexed(years, classes, yearsList, classesList, records) && IsClassName(name)
    ensures Indexed(FileClass(years, name, |records|), classes[name := |records|],
                    if Year(name) in years then yearsList else yearsList + [Year(name)],
                    classesList + [name], records + [ClassRecord(name, None)])
  {
    ClassesIndexedAdd(classes, classesList, records, name);
    YearsIndexedAdd(years, yearsList, classesList, classes, name, |records|);
  }

  /** The five tables of the report, taken together as one value. */
  datatype Tables = Tables(years: map<string, YearRecord>, classes: map<string, Handle>,
                           yearsList: seq<string>, classesList: seq<string>, records: seq<ClassRecord>)

  ghost predicate TablesIndexed(t: Tables)
  {
    Indexed(t.years, t.classes, t.yearsList, t.classesList, t.records)
  }

  /** The tables once `name` has been added (test.js:86-99). */
  function FileOne(t: Tables, name: string): Tables
  {
    Tables(FileClass(t.years, name, |t.records|),
           t.classes[name := |t.records|],
           if Year(name) in t.years then t.yearsList else t.yearsList + [Year(name)],
           t.classesList + [name],
           t.records + [ClassRecord(name, None)])
  }

  /** The tables once every name of `names` has been added, in order. */
  function FileAll(t: Tables, names: seq<string>): Tables
  {
    if names == [] then t else FileOne(FileAll(t, names[..|names| - 1]), names[|names| - 1])
  }

  /** Adding one more name of `names` to its first `i`. */
  lemma FileAllStep(t: Tables, names: seq<string>, i: nat)
    requires i < |names|
    ensures FileAll(t, names[..i + 1]) == FileOne(FileAll(t, names[..i]), names[i])
  {
    assert names[..i + 1][..i] == names[..i];
  }

  /** Adding class names, one after the other, keeps the report indexed. */
  lemma {:induction false} FileAllIndexed(t: Tables, names: seq<string>)
    requires TablesIndexed(t)
    requires forall i :: 0 <= i < |names| ==> IsClassName(names[i])
    ensures TablesIndexed(FileAll(t, names))
  {
    if names != [] {
      var u := FileAll(t, names[..|names| - 1]);
      FileAllIndexed(t, names[..|names| - 1]);
      IndexedAdd(u.years, u.classes, u.yearsList, u.classesList, u.records, names[|names| - 1]);
    }
  }

  /** Adding names appends them to `classesList`, and appends one fresh
      record per name to the arena, leaving the old records as they were. */
  lemma {:induction false} FileAllAppends(t: Tables, names: seq<string>)
    ensures FileAll(t, names).classesList == t.classesList + names
    ensures |FileAll(t, names).records| == |t.records| + |names|
    ensures FileAll(t, names).records[..|t.records|] == t.records
    ensures forall k :: 0 <= k < |names| ==> FileAll(t, names).records[|t.records| + k] == ClassRecord(names[k], None)
  {
    if names != [] {
      var init, last := names[..|names| - 1], names[|names| - 1];
      FileAllAppends(t, init);
      assert names == init + [last];
    }
  }

  /** After adding names, each added name is indexed to one of the fresh
      records, which holds that name and no count, and every other name
      keeps the handle it had. */
  lemma {:induction false} FileAllHandles(t: Tables, names: seq<string>)
    ensures |FileAll(t, names).records| == |t.records| + |names|
    ensures forall n :: n in names ==>
      && n in FileAll(t, names).classes
      && |t.records| <= FileAll(t, names).classes[n] < |t.records| + |names|
      && FileAll(t, names).records[FileAll(t, names).classes[n]] == ClassRecord(n, None)
    ensures forall n :: n in t.classes && n !in names ==>
      n in FileAll(t, names).classes && FileAll(t, names).classes[n] == t.classes[n]
  {
    if names != [] {
      var init, last := names[..|names| - 1], names[|names| - 1];
      FileAllHandles(t, init);
      FileAllAppends(t, init);
      assert names == init + [last];
    }
  }

  /** A name added more than once leads to the record of its last
      occurrence, as each `classes[name] = {...}` replaces the one before. */
  lemma {:induction false} FileAllLastHandle(t: Tables, names: seq<string>)
    ensures |FileAll(t, names).records| == |t.records| + |names|
    ensures forall k :: 0 <= k < |names| && names[k] !in names[k + 1..] ==>
      names[k] in FileAll(t, names).classes && FileAll(t, names).classes[names[k]] == |t.records| + k
  {
    if names != [] {
      var init, last := names[..|names| - 1], names[|names| - 1];
      var u := FileAll(t, init);
      FileAllLastHandle(t, init);
      forall k | 0 <= k < |names| && names[k] !in names[k + 1..]
        ensures names[k] in FileOne(u, last).classes && FileOne(u, last).classes[names[k]] == |t.records| + k
      {
        if k < |init| {
          assert names[k + 1..] == init[k + 1..] + [last];
          assert names[k] != last && init[k] !in init[k + 1..];
        }
      }
    }
  }

  /** `u` is `t` with `names` added: the class list grew by `names`, the
      arena by one fresh record per name with the old records kept, each
      added name leads to the fresh record of its last occurrence, holding
      the name and no count, and every other name keeps its handle. */
  ghost predicate Extended(t: Tables, names: seq<string>, u: Tables)
  {
    && u.classesList == t.classesList + names
    && |u.records| == |t.records| + |names|
    && u.records[..|t.records|] == t.records
    && (forall k :: 0 <= k < |names| ==> u.records[|t.records| + k] == ClassRecord(names[k], None))
    && (forall n :: n in names ==> n in u.classes && |t.records| <= u.classes[n] < |u.records| && u.records[u.classes[n]] == ClassRecord(n, None))
    && (forall n :: n in t.classes && n !in names ==> n in u.classes && u.classes[n] == t.classes[n])
    && (forall k :: 0 <= k < |names| && names[k] !in names[k + 1..] ==>
          names[k] in u.classes && u.classes[names[k]] == |t.records| + k)
  }

  /** Adding class names to indexed tables leaves indexed tables that
      extend them. */
  lemma FileAllFacts(t: Tables, names: seq<string>, u: Tables)
    requires TablesIndexed(t) && u == FileAll(t, names)
    requires forall i :: 0 <= i < |names| ==> IsClassName(names[i])
    ensures TablesIndexed(u) && Extended(t, names, u)
  {
    FileAllIndexed(t, names);
    FileAllAppends(t, names);
    FileAllHandles(t, names);
    FileAllLastHandle(t, names);
  }

  /**
   * The loop of `processClassList` (test.js:81-100) over the elements of
   * the list: each class-name string is added to the tables `t`, in
   * order, and the loop stops at the first element that is not one,
   * keeping what it added. `end` is how the loop ends: the fan-out over
   * the whole class list, the rejected element, or a throw.
   */
  method FileNames(items: seq<Json>, t: Tables) returns (end: ListOutcome, u: Tables)
    requires TablesIndexed(t)
    ensures end == ListEnd(items, u.classesList)
    ensures TablesIndexed(u) && Extended(t, AcceptedNames(items), u)
  {
    ghost var names := AcceptedNames(items);
    u := t;
    var i := 0;
    end := FanOutStarted([]);
    while i < |items|
      invariant i <= |names|
      invariant u == FileAll(t, names[..i])
      invariant end == FanOutStarted([])
    {
      var item := items[i];
      var test := TestValue(item);
      if test != Match || !item.JString? {
        // The test threw converting the element to a string, or rejected
        // it, or accepted an array, which has no `substr`.
        assert i == |names|;
        end := if test == NoMatch then ListRejected(BadClassName(item)) else ListThrew;
        break;
      }
      FileAllStep(t, names, i);
      u := FileOne(u, item.s);
      i := i + 1;
    }
    assert names[..i] == names;
    if end == FanOutStarted([]) {
      end := FanOutStarted(u.classesList);
    }
    FileAllFacts(t, names, u);
  }

  /**
   * `processClassList` (test.js:70-107) on the report's tables `t`: a
   * transport error, a status other than 200 or a body that is not an
   * array returns false and leaves the tables as they were; otherwise the
   * elements are added as `FileNames` does.
   */
  method ProcessList(error: bool, code: int, payload: Json, t: Tables) returns (outcome: ListOutcome, u: Tables)
    requires TablesIndexed(t)
    ensures TablesIndexed(u)
    ensures error ==> outcome == ListRejected(TransportError) && u == t
    ensures !error && code != 200 ==> outcome == ListRejected(HttpStatus(code)) && u == t
    ensures !error && code == 200 && !payload.JArray? ==> outcome == ListRejected(BadContent) && u == t
    ensures !error && code == 200 && payload.JArray? ==>
      && outcome == ListEnd(payload.elems, u.classesList)
      && Extended(t, AcceptedNames(payload.elems), u)
  {
    if error {
      return ListRejected(TransportError), t;
    }
    if code != 200 {
      return ListRejected(HttpStatus(code)), t;
    }
    if !payload.JArray? {
      return ListRejected(BadContent), t;
    }
    outcome, u := FileNames(payload.elems, t);
  }

  /** A size response, tagged with the class it was requested for. */
  datatype SizeResponse = SizeResponse(name: string, error: bool, code: int, payload: Json)

  function ResponseOutcome(r: SizeResponse): SizeOutcome
  {
    CheckSize(r.error, r.code, r.payload)
  }

  predicate AllFor(handles: map<string, Handle>, rs: seq<SizeResponse>)
  {
    forall i :: 0 <= i < |rs| ==> rs[i].name in handles
  }

  /** The arena after size responses are handled in the order of `rs`:
      each accepted count is written into its class's record, and a
      response that throws ends the process, so nothing after it lands. */
  function ApplyAll(records: seq<ClassRecord>, handles: map<string, Handle>, rs: seq<SizeResponse>): seq<ClassRecord>
    requires AllFor(handles, rs)
    decreases |rs|
  {
    if rs == [] then records
    else
      match ResponseOutcome(rs[0])
      case SizeThrew => records
      case SizeRejected(_) => ApplyAll(records, handles, rs[1..])
      case Counted(c) => ApplyAll(WriteCount(records, handles[rs[0].name], c), handles, rs[1..])
  }

  /** The count the responses of `rs` leave in the record at handle `h`:
      the last accepted one addressed to it, if any. */
  function Written(handles: map<string, Handle>, rs: seq<SizeResponse>, h: Handle): Option<int>
    requires AllFor(handles, rs)
  {
    if rs == [] then None
    else
      var later := Written(handles, rs[1..], h);
      if later.Some? then later
      else if handles[rs[0].name] == h && ResponseOutcome(rs[0]).Counted? then Some(ResponseOutcome(rs[0]).count)
      else None
  }

  predicate NoneThrow(rs: seq<SizeResponse>)
  {
    forall r :: r in rs ==> !ResponseOutcome(r).SizeThrew?
  }

  /** Each record ends up with the last count written to it, and nothing
      else about the arena changes. */
  lemma {:induction false} ApplyAllAt(records: seq<ClassRecord>, handles: map<string, Handle>,
                                      rs: seq<SizeResponse>, k: nat)
    requires AllFor(handles, rs) && NoneThrow(rs) && k < |records|
    decreases |rs|
    ensures |ApplyAll(records, handles, rs)| == |records|
    ensures ApplyAll(records, handles, rs)[k] ==
      match Written(handles, rs, k)
      case None => records[k]
      case Some(c) => records[k].(count := Some(c))
  {
    if rs != [] {
      assert rs[0] in rs;
      assert NoneThrow(rs[1..]) by {
        forall r | r in rs[1..] ensures !ResponseOutcome(r).SizeThrew? {
          assert r in rs;
        }
      }
      match ResponseOutcome(rs[0])
      case SizeRejected(_) =>
        ApplyAllAt(records, handles, rs[1..], k);
      case Counted(c) =>
        ApplyAllAt(WriteCount(records, handles[rs[0].name], c), handles, rs[1..], k);
    }
  }

  /** When no two responses address the same record, the count left at a
      record is the one accepted response addressed to it, wherever it
      stands in the sequence. */
  lemma {:induction false} WrittenByMember(handles: map<string, Handle>, rs: seq<SizeResponse>, h: Handle)
    requires AllFor(handles, rs)
    requires forall i, j :: 0 <= i < j < |rs| ==> handles[rs[i].name] != handles[rs[j].name]
    ensures Written(handles, rs, h).None? <==>
      forall r :: r in rs && handles[r.name] == h ==> !ResponseOutcome(r).Counted?
    ensures forall r :: r in rs && handles[r.name] == h && ResponseOutcome(r).Counted? ==>
      Written(handles, rs, h) == Some(ResponseOutcome(r).count)
  {
    if rs != [] {
      WrittenByMember(handles, rs[1..], h);
      forall r | r in rs
        ensures r == rs[0] || r in rs[1..]
      {
        var i :| 0 <= i < |rs| && rs[i] == r;
        if i > 0 { assert rs[1..][i - 1] == r; }
      }
      if handles[rs[0].name] == h {
        forall r | r in rs[1..] ensures handles[r.name] != h {
          var i :| 0 <= i < |rs[1..]| && rs[1..][i] == r;
          assert rs[i + 1] == r;
        }
      }
    }
  }

  /**
   * The fan-out admits the classes in order but their responses come back
   * in any order. When the class names are distinct and no response
   * throws, the counts in the report do not depend on that order: any two
   * completion orders of the same responses give the same records.
   */
  lemma {:induction false} CompletionOrderIrrelevant(records: seq<ClassRecord>, handles: map<string, Handle>,
                                                     rs1: seq<SizeResponse>, rs2: seq<SizeResponse>)
    requires multiset(rs1) == multiset(rs2)
    requires AllFor(handles, rs1) && AllFor(handles, rs2) && NoneThrow(rs1)
    requires forall a, b :: a in handles && b in handles && a != b ==> handles[a] != handles[b]
    requires forall i, j :: 0 <= i < j < |rs1| ==> rs1[i].name != rs1[j].name
    requires forall i, j :: 0 <= i < j < |rs2| ==> rs2[i].name != rs2[j].name
    ensures ApplyAll(records, handles, rs1) == ApplyAll(records, handles, rs2)
  {
    forall r | r in rs2 ensures r in rs1 {
      assert r in multiset(rs2);
    }
    forall r | r in rs1 ensures r in rs2 {
      assert r in multiset(rs1);
    }
    var a1 := ApplyAll(records, handles, rs1);
    var a2 := ApplyAll(records, handles, rs2);
    ApplyAllKeepsNames(records, handles, rs1);
    ApplyAllKeepsNames(records, handles, rs2);
    forall k | 0 <= k < |records| ensures a1[k] == a2[k] {
      ApplyAllAt(records, handles, rs1, k);
      ApplyAllAt(records, handles, rs2, k);
      WrittenByMember(handles, rs1, k);
      WrittenByMember(handles, rs2, k);
    }
  }

  /** Handling size responses changes counts only: the arena keeps its
      length and every record its name. */
  lemma {:induction false} ApplyAllKeepsNames(records: seq<ClassRecord>, handles: map<string, Handle>, rs: seq<SizeResponse>)
    requires AllFor(handles, rs)
    decreases |rs|
    ensures |ApplyAll(records, handles, rs)| == |records|
    ensures forall k :: 0 <= k < |records| ==> ApplyAll(records, handles, rs)[k].name == records[k].name
  {
    if rs != [] {
      match ResponseOutcome(rs[0])
      case SizeThrew =>
      case SizeRejected(_) => ApplyAllKeepsNames(records, handles, rs[1..]);
      case Counted(c) => ApplyAllKeepsNames(WriteCount(records, handles[rs[0].name], c), handles, rs[1..]);
    }
  }

  /**
   * The merge of the fan-out's responses on the arena, one after another
   * in the order they complete: each is checked as `getClassSize`'s
   * callback does (test.js:112-125) and an accepted count is written into
   * its class's record. A response that throws stops the process.
   */
  method ApplySizes(records: seq<ClassRecord>, handles: map<string, Handle>, rs: seq<SizeResponse>)
    returns (threw: bool, records': seq<ClassRecord>)
    requires AllFor(handles, rs)
    ensures records' == ApplyAll(records, handles, rs)
    ensures threw <==> exists i :: 0 <= i < |rs| && ResponseOutcome(rs[i]).SizeThrew?
  {
    records' := records;
    threw := false;
    var i := 0;
    while i < |rs|
      invariant i <= |rs|
      invariant ApplyAll(records', handles, rs[i..]) == ApplyAll(records, handles, rs)
      invariant forall j :: 0 <= j < i ==> !ResponseOutcome(rs[j]).SizeThrew?
    {
      var r := rs[i];
      var outcome := CheckSize(r.error, r.code, r.payload);
      if outcome.SizeThrew? {
        threw := true;
        break;
      }
      if outcome.Counted? {
        records' := WriteCount(records', handles[r.name], outcome.count);
      }
      assert rs[i..][1..] == rs[i + 1..];
      i := i + 1;
    }
  }

  class ClassInfo {
    var years: map<string, YearRecord>
    var classes: map<string, Handle>
    var yearsList: seq<string>
    var classesList: seq<string>
    /** Every class record created so far; a record replaced in `classes`
        stays here, unreferenced. */
    var records: seq<ClassRecord>

    ghost predicate Valid()
      reads this
    {
      Indexed(years, classes, yearsList, classesList, records)
    }

    /** The empty report of test.js:40-45. */
    constructor ()
      ensures Valid()
      ensures years == map[] && classes == map[] && yearsList == [] && classesList == []
      ensures records == []
    {
      years, classes, yearsList, classesList, records := map[], map[], [], [], [];
    }

    /** The five fields, as one value. */
    function Snapshot(): Tables
      reads this
    {
      Tables(years, classes, yearsList, classesList, records)
    }

    /** `classes[name]`. */
    function ClassView(name: string): ClassRecord
      reads this
      requires Valid() && name in classes
    {
      records[classes[name]]
    }

    /** `years[year].classes[name]`: always the very record `classes[name]`
        holds. */
    function YearView(year: string, name: string): (r: ClassRecord)
      reads this
      requires Valid() && year in years && name in years[year].classes
      ensures year == Year(name) && name in classes && r == ClassView(name)
    {
      assert years[year].classes[name] == classes[name];
      records[years[year].classes[name]]
    }

    /** Every listed class is filed under its year. */
    lemma ClassFiled(name: string)
      requires Valid() && name in classes
      ensures Year(name) in years && name in years[Year(name)].classes
    {
      var i :| 0 <= i < |classesList| && classesList[i] == name;
      YearsOfElements(classesList, Year(name));
      MembersCount(classesList, Year(name), name);
      assert name in multiset(Members(classesList, Year(name)));
    }

    /** Distinct class names never share a record. */
    lemma ClassesInjective()
      requires Valid()
      ensures forall a, b :: a in classes && b in classes && a != b ==> classes[a] != classes[b]
    {
    }

    /** On the report's own index, any two completion orders of the same
        size responses, for distinct classes and with no throw, leave the
        same counts. */
    lemma SizesOrderIrrelevant(rs1: seq<SizeResponse>, rs2: seq<SizeResponse>)
      requires Valid() && AllFor(classes, rs1) && AllFor(classes, rs2)
      requires multiset(rs1) == multiset(rs2) && NoneThrow(rs1)
      requires forall i, j :: 0 <= i < j < |rs1| ==> rs1[i].name != rs1[j].name
      requires forall i, j :: 0 <= i < j < |rs2| ==> rs2[i].name != rs2[j].name
      ensures ApplyAll(records, classes, rs1) == ApplyAll(records, classes, rs2)
    {
      ClassesInjective();
      CompletionOrderIrrelevant(records, classes, rs1, rs2);
    }

    /**
     * `processClassList` (test.js:70-107) on a response already parsed.
     * A transport error, a status other than 200 or a body that is not an
     * array returns false with nothing changed. Otherwise the elements are
     * added in order until the first one that is not a class-name string:
     * the loop stops there and what it added stays. The fan-out starts,
     * over the whole of `classesList`, only when every element was added.
     */
    method ProcessClassList(error: bool, code: int, payload: Json) returns (outcome: ListOutcome)
      requires Valid()
      modifies this
      ensures Valid()
      ensures error ==> outcome == ListRejected(TransportError) && unchanged(this)
      ensures !error && code != 200 ==> outcome == ListRejected(HttpStatus(code)) && unchanged(this)
      ensures !error && code == 200 && !payload.JArray? ==> outcome == ListRejected(BadContent) && unchanged(this)
      ensures !error && code == 200 && payload.JArray? ==>
        && outcome == ListEnd(payload.elems, classesList)
        && Extended(old(Snapshot()), AcceptedNames(payload.elems), Snapshot())
    {
      var u;
      outcome, u := ProcessList(error, code, payload, Snapshot());
      years, classes, yearsList, classesList, records := u.years, u.classes, u.yearsList, u.classesList, u.records;
      assert Snapshot() == u;
    }

    /**
     * The response callback of `getClassSize` (test.js:112-125) for a
     * class of the list. Only a response with no error, status 200 and an
     * integral `count` writes anything, and it writes that count, whatever
     * its sign, into the one record both indices share.
     */
    method ApplyClassSize(name: string, error: bool, code: int, payload: Json) returns (outcome: SizeOutcome)
      requires Valid() && name in classes
      modifies this`records
      ensures Valid()
      ensures outcome == CheckSize(error, code, payload)
      ensures records == if outcome.Counted? then WriteCount(old(records), classes[name], outcome.count) else old(records)
      ensures outcome.Counted? ==>
        && ClassView(name) == ClassRecord(name, Some(outcome.count))
        && Year(name) in years && name in years[Year(name)].classes
        && YearView(Year(name), name).count == Some(outcome.count)
    {
      outcome := CheckSize(error, code, payload);
      if outcome.Counted? {
        records := WriteCount(records, classes[name], outcome.count);
        ClassFiled(name);
      }
    }

    /**
     * The merge of the fan-out's responses, applied to the report in the
     * order they complete. Each response must be for a listed class, as
     * the fan-out only asks for those. A response that throws stops the
     * process, and it is reported.
     */
    method ApplyClassSizes(rs: seq<SizeResponse>) returns (threw: bool)
      requires Valid() && AllFor(classes, rs)
      modifies this`records
      ensures Valid()
      ensures records == ApplyAll(old(records), classes, rs)
      ensures threw <==> exists i :: 0 <= i < |rs| && ResponseOutcome(rs[i]).SizeThrew?
    {
      var records';
      threw, records' := ApplySizes(records, classes, rs);
      ApplyAllKeepsNames(records, classes, rs);
      records := records';
    }
  }
}
