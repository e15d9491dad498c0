/**
 * The class-name check of test.js: the regular expression
 * `/^[0-9][0-9][A-Z]$/`, applied with `RegExp.prototype.test` to each
 * element of the parsed class list, and the class year, the name's first
 * two characters.
 */
module ClassNames {
  import opened Json
  import opened JsString

  /** A bracket expression `[lo-hi]`: one character in that range. */
  datatype CharRange = CharRange(lo: char, hi: char)

  /** The class-name pattern with its anchors `^` and `$` implied: a match
      covers the whole string, one range per character. */
  const ClassNamePattern: seq<CharRange> :=
    [CharRange('0', '9'), CharRange('0', '9'), CharRange('A', 'Z')]

  /** Whether the anchored pattern matches all of `s`. */
  predicate Matches(pattern: seq<CharRange>, s: string)
  {
    if pattern == [] then s == []
    else s != [] && pattern[0].lo <= s[0] <= pattern[0].hi && Matches(pattern[1..], s[1..])
  }

  predicate IsClassName(s: string)
  {
    Matches(ClassNamePattern, s)
  }

  /** A name is accepted exactly when it is two ASCII digits and one
      upper-case ASCII letter, and nothing more. */
  lemma ClassNameShape(s: string)
    ensures IsClassName(s) <==>
      |s| == 3 && '0' <= s[0] <= '9' && '0' <= s[1] <= '9' && 'A' <= s[2] <= 'Z'
  {
    var p := ClassNamePattern;
    assert p[1..] == [CharRange('0', '9'), CharRange('A', 'Z')];
    assert p[1..][1..] == [CharRange('A', 'Z')];
    assert p[1..][1..][1..] == [];
    if |s| >= 3 {
      var t := s[1..][1..][1..];
      assert t == s[3..] && |t| == |s| - 3;
      assert Matches(p[1..][1..][1..], t) <==> |s| == 3;
      assert Matches(p[1..][1..], s[1..][1..]) <==> 'A' <= s[2] <= 'Z' && |s| == 3;
      assert Matches(p[1..], s[1..]) <==> '0' <= s[1] <= '9' && 'A' <= s[2] <= 'Z' && |s| == 3;
    } else if |s| == 2 {
      assert !Matches(p[1..][1..], s[1..][1..]);
      assert !Matches(p[1..], s[1..]);
    } else if |s| == 1 {
      assert !Matches(p[1..], s[1..]);
    }
  }

  /** How `classNameRegex.test(v)` ends. */
  datatype TestResult = Match | NoMatch | TestThrew

  /** `classNameRegex.test(v)`: the value is converted to a string, which
      may throw, and the string is matched against the pattern. */
  function TestValue(v: Json): TestResult
  {
    match JsToString(v)
    case None => TestThrew
    case Some(s) => if IsClassName(s) then Match else NoMatch
  }

  /** A class name has no ',' in it, so no join of two or more parts is one. */
  lemma NoCommaInClassName(s: string)
    requires IsClassName(s)
    ensures ',' !in s
  {
    ClassNameShape(s);
    assert s == [s[0], s[1], s[2]];
  }

  /** No number converts to a class name: its third character, if any, is
      not a capital letter. */
  lemma NumberNeverClassName(n: Number)
    ensures !IsClassName(NumberText(n))
  {
    var t := NumberText(n);
    NumberTextShape(n);
    ClassNameShape(t);
    if |t| == 3 && NumericText(t) {
      NumericAt(t, 2);
    }
  }

  /**
   * The test throws exactly where the conversion does: on an object with
   * its own "toString" key, or an array holding one at any depth. It
   * matches exactly a class-name string, or an array of exactly one element
   * that itself matches: null, booleans, numbers and other objects convert
   * to "null", "true", "false", numeric text and "[object Object]", an
   * empty array or one holding only null to "", and two or more elements
   * are joined by ','.
   */
  lemma TestValueShape(v: Json)
    ensures TestValue(v) == TestThrew <==> ToStringThrows(v)
    ensures TestValue(v) == Match <==>
      || (v.JString? && IsClassName(v.s))
      || (v.JArray? && |v.elems| == 1 && TestValue(v.elems[0]) == Match)
  {
    JsToStringThrows(v);
    match v
    case JNull =>
      ClassNameShape("null");
    case JBool(b) =>
      ClassNameShape("true");
      ClassNameShape("false");
    case JNumber(n) =>
      NumberNeverClassName(n);
    case JString(_) =>
    case JObject(_) =>
      ClassNameShape("[object Object]");
    case JArray(elems) =>
      if |elems| == 0 {
        ClassNameShape("");
      } else if |elems| == 1 {
        ClassNameShape("");
        ClassNameShape("null");
      } else {
        JoinHasComma(v, |elems|);
        if JsToString(v).Some? && IsClassName(JsToString(v).value) {
          NoCommaInClassName(JsToString(v).value);
        }
      }
  }

  /** `className.substr(0, 2)`: the first two characters, or all of a
      shorter string. */
  function Year(name: string): string
  {
    if |name| < 2 then name else name[..2]
  }

  /** The year of a class name is its two digits. */
  lemma ClassYear(name: string)
    requires IsClassName(name)
    ensures |Year(name)| == 2 && Year(name) == [name[0], name[1]]
    ensures '0' <= Year(name)[0] <= '9' && '0' <= Year(name)[1] <= '9'
  {
    ClassNameShape(name);
  }
}
