/**
 * What the grouped half of the class report holds, as functions of the
 * flat `classesList`: the years in order of first appearance (`yearsList`)
 * and each year's names in input order (`years[y].classList`).
 */
module Grouping {
  import opened ClassNames

  /** The years of `names`, each once, in order of first appearance. */
  function YearsOf(names: seq<string>): seq<string>
  {
    if names == [] then []
    else
      var earlier := YearsOf(names[..|names| - 1]);
      var year := Year(names[|names| - 1]);
      if year in earlier then earlier else earlier + [year]
  }

  /** The names of `names` whose year is `year`, in input order. */
  function Members(names: seq<string>, year: string): seq<string>
  {
    if names == [] then []
    else
      var last := names[|names| - 1];
      Members(names[..|names| - 1], year) + (if Year(last) == year then [last] else [])
  }

  /** The members of each year of `years`, one year after another. */
  function Grouped(names: seq<string>, years: seq<string>): seq<string>
  {
    if years == [] then [] else Members(names, years[0]) + Grouped(names, years[1..])
  }

  predicate Distinct<T(==)>(s: seq<T>)
  {
    forall i, j :: 0 <= i < j < |s| ==> s[i] != s[j]
  }

  /** No year is listed twice. */
  lemma {:induction false} YearsOfDistinct(names: seq<string>)
    ensures Distinct(YearsOf(names))
  {
    if names != [] {
      YearsOfDistinct(names[..|names| - 1]);
    }
  }

  /** The years listed are exactly the years of the names. */
  lemma {:induction false} YearsOfElements(names: seq<string>, year: string)
    ensures year in YearsOf(names) <==> exists i :: 0 <= i < |names| && Year(names[i]) == year
  {
    if names != [] {
      var init := names[..|names| - 1];
      YearsOfElements(init, year);
      if year in YearsOf(init) {
        var i :| 0 <= i < |init| && Year(init[i]) == year;
        assert Year(names[i]) == year;
      }
    }
  }

  /** Years only ever get appended: the years of any prefix of the names
      come first, in the same order. */
  lemma {:induction false} YearsOfPrefix(names: seq<string>, k: nat)
    requires k <= |names|
    ensures YearsOf(names[..k]) <= YearsOf(names)
  {
    if k < |names| {
      var init := names[..|names| - 1];
      YearsOfPrefix(init, k);
      assert init[..k] == names[..k];
    } else {
      assert names[..k] == names;
    }
  }

  /** A year's list holds every name of that year as often as the input
      does, and no name of another year. */
  lemma {:induction false} MembersCount(names: seq<string>, year: string, name: string)
    ensures multiset(Members(names, year))[name] == if Year(name) == year then multiset(names)[name] else 0
  {
    if names != [] {
      var init := names[..|names| - 1];
      MembersCount(init, year, name);
      assert names == init + [names[|names| - 1]];
    }
  }

  /** Names only ever get appended to a year's list. */
  lemma {:induction false} MembersPrefix(names: seq<string>, year: string, k: nat)
    requires k <= |names|
    ensures Members(names[..k], year) <= Members(names, year)
  {
    if k < |names| {
      var init := names[..|names| - 1];
      MembersPrefix(init, year, k);
      assert init[..k] == names[..k];
    } else {
      assert names[..k] == names;
    }
  }

  lemma {:induction false} MembersOfAbsentYear(names: seq<string>, year: string)
    requires forall i :: 0 <= i < |names| ==> Year(names[i]) != year
    ensures Members(names, year) == []
  {
    if names != [] {
      MembersOfAbsentYear(names[..|names| - 1], year);
    }
  }

  lemma {:induction false} GroupedAppendYear(names: seq<string>, years: seq<string>, year: string)
    ensures Grouped(names, years + [year]) == Grouped(names, years) + Members(names, year)
  {
    if years != [] {
      GroupedAppendYear(names, years[1..], year);
      assert (years + [year])[1..] == years[1..] + [year];
    }
  }

  lemma {:induction false} GroupedAppendName(names: seq<string>, name: string, years: seq<string>)
    requires Distinct(years)
    ensures multiset(Grouped(names + [name], years))
         == multiset(Grouped(names, years)) + if Year(name) in years then multiset{name} else multiset{}
  {
    if years != [] {
      assert Distinct(years[1..]);
      GroupedAppendName(names, name, years[1..]);
      assert (names + [name])[..|names|] == names;
      assert Year(name) == years[0] ==> Year(name) !in years[1..];
    }
  }

  /** Every name lands in exactly one year's list, once per occurrence:
      the year lists, taken in the order of `yearsList`, are a permutation
      of the flat list. */
  lemma {:induction false} GroupsPartition(names: seq<string>)
    ensures multiset(Grouped(names, YearsOf(names))) == multiset(names)
  {
    if names != [] {
      var init := names[..|names| - 1];
      var name := names[|names| - 1];
      assert names == init + [name];
      GroupsPartition(init);
      YearsOfDistinct(init);
      GroupedAppendName(init, name, YearsOf(init));
      if Year(name) !in YearsOf(init) {
        GroupedAppendYear(names, YearsOf(init), Year(name));
        forall i | 0 <= i < |init| ensures Year(init[i]) != Year(name) {
          YearsOfElements(init, Year(name));
        }
        MembersOfAbsentYear(init, Year(name));
        assert Members(names, Year(name)) == [name];
      }
    }
  }
}
