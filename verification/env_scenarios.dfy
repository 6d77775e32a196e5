/** Concrete scenarios from the package's table-driven tests, stated over a
    one-entry environment. The case-insensitive scenarios use ASCII lowering as
    the instance of strings.ToLower; the regex scenarios keep the engine abstract
    and state only what they need of it. */
module EnvScenarios {
  import opened Env

  const TestKey := "TEST_KEY"
  const TestValue := "testValue"
  const DefaultValue := "defaultValue"
  const EmptyValue := ""

  /** strings.ToLower restricted to ASCII letters. */
  function LowerChar(c: char): (l: char)
    ensures 'A' <= c <= 'Z' ==> l as int == c as int + 32
    ensures !('A' <= c <= 'Z') ==> l == c
  {
    if 'A' <= c <= 'Z' then (c as int + 32) as char else c
  }

  function AsciiLower(s: string): (r: string)
    ensures |r| == |s| && forall i :: 0 <= i < |s| ==> r[i] == LowerChar(s[i])
  {
    seq(|s|, i requires 0 <= i < |s| => LowerChar(s[i]))
  }

  /** A set value wins over the default, an empty one included; an unset key
      gives the default. */
  lemma GetScenarios()
    ensures Get(map[], TestKey, DefaultValue) == DefaultValue
    ensures Get(map[], TestKey, EmptyValue) == EmptyValue
    ensures Get(map[TestKey := TestValue], TestKey, DefaultValue) == TestValue
    ensures Get(map[TestKey := EmptyValue], TestKey, DefaultValue) == EmptyValue
  {
  }

  lemma MustGetScenarios()
    ensures MustGet(map[], TestKey) == Err(KeyNotFound(TestKey))
    ensures MustGet(map[TestKey := TestValue], TestKey) == Ok(TestValue)
    ensures MustGet(map[TestKey := EmptyValue], TestKey) == Ok(EmptyValue)
  {
  }

  /** An unset key fails whatever the list; a set key fails on an empty list and on
      a list holding only an upper-cased copy; a listed value, the empty one
      included, is returned. */
  lemma MustGetInScenarios()
    ensures MustGetIn(map[], TestKey, []) == Err(KeyNotFound(TestKey))
    ensures MustGetIn(map[], TestKey, ["testVal", "testValues"]) == Err(KeyNotFound(TestKey))
    ensures MustGetIn(map[TestKey := TestValue], TestKey, []) == Err(ValueNotIn(TestKey))
    ensures MustGetIn(map[TestKey := TestValue], TestKey, ["testVal", "testValues"]) == Err(ValueNotIn(TestKey))
    ensures MustGetIn(map[TestKey := TestValue], TestKey, ["testVal", "testValues", TestValue]) == Ok(TestValue)
    ensures MustGetIn(map[TestKey := TestValue], TestKey, ["testVal", "testValues", "TESTVALUE"]) == Err(ValueNotIn(TestKey))
    ensures MustGetIn(map[TestKey := EmptyValue], TestKey, ["testVal", "testValues"]) == Err(ValueNotIn(TestKey))
    ensures MustGetIn(map[TestKey := EmptyValue], TestKey, ["testVal", "testValues", EmptyValue]) == Ok(EmptyValue)
  {
  }

  /** An upper-cased allow entry lets the stored value through, un-lowered; an
      upper-cased copy of the default lets nothing through. */
  lemma GetInCaseInsensitiveScenarios()
    ensures GetInCaseInsensitive(AsciiLower, map[TestKey := TestValue], TestKey, DefaultValue,
                                 ["testVal", "testValues", "TESTVALUE"]) == TestValue
    ensures GetInCaseInsensitive(AsciiLower, map[TestKey := TestValue], TestKey, DefaultValue,
                                 ["testVal", "testValues", "DEFAULTVALUE"]) == DefaultValue
    ensures GetInCaseInsensitive(AsciiLower, map[TestKey := EmptyValue], TestKey, DefaultValue,
                                 ["testVal", "testValues", EmptyValue]) == EmptyValue
  {
    var upper := ["testVal", "testValues", "TESTVALUE"];
    assert AsciiLower(upper[2]) == AsciiLower(TestValue);
    assert FoldIn(AsciiLower, TestValue, upper);
    var other := ["testVal", "testValues", "DEFAULTVALUE"];
    forall i | 0 <= i < |other| ensures AsciiLower(other[i]) != AsciiLower(TestValue) {
      assert AsciiLower(other[i])[1] != AsciiLower(TestValue)[1]
        || |AsciiLower(other[i])| != |AsciiLower(TestValue)|;
    }
    var withEmpty := ["testVal", "testValues", EmptyValue];
    assert AsciiLower(withEmpty[2]) == AsciiLower(EmptyValue);
    assert FoldIn(AsciiLower, EmptyValue, withEmpty);
  }

  /** A key stored with a value equal to the default short-circuits: the default
      comes back even when it is on the deny-list. */
  lemma StoredDefaultScenario()
    ensures GetExcept(map[TestKey := DefaultValue], TestKey, DefaultValue, [DefaultValue]) == DefaultValue
    ensures GetIn(map[TestKey := DefaultValue], TestKey, DefaultValue, []) == DefaultValue
  {
  }

  /** For any engine on which "[invalid" does not compile and "test" matches the
      stored value: the bad pattern alone makes MustGetInRegex fail with a compile
      error and makes GetInRegex fall back even when a matching pattern follows it,
      while a matching pattern placed before it hides it. */
  lemma RegexScenarios<Re>(re: Regexp<Re>)
    requires re.compile("[invalid").None?
    requires re.compile("test").Some? && re.matchString(re.compile("test").value, TestValue)
    ensures MustGetInRegex(re, map[TestKey := TestValue], TestKey, ["[invalid"])
         == Err(RegexCompileFailed(TestKey))
    ensures GetInRegex(re, map[TestKey := TestValue], TestKey, DefaultValue, ["[invalid", "test"])
         == DefaultValue
    ensures MustGetInRegex(re, map[TestKey := TestValue], TestKey, ["test", "[invalid"]) == Ok(TestValue)
    ensures GetExceptRegex(re, map[TestKey := TestValue], TestKey, DefaultValue, ["test"]) == DefaultValue
  {
  }
}
