/** Properties of package env that relate several of its functions: the default
    short-circuit, the duality of the In and Except filters, the order dependence of
    the regex scan, and how the soft family is the Must family with a fallback. */
module EnvLemmas {
  import opened Env

  // ---------------------------------------------------------------------------
  // Get and MustGet
  // ---------------------------------------------------------------------------

  /** Get and MustGet read the same primitive: MustGet succeeds with exactly what
      Get returns for any default, and fails exactly where Get falls back. */
  lemma MustGetAgreesWithGet(env: Environ, key: string, defaultValue: string)
    ensures MustGet(env, key).Ok? ==> Get(env, key, defaultValue) == MustGet(env, key).value
    ensures MustGet(env, key).Err? ==> Get(env, key, defaultValue) == defaultValue
    ensures MustGet(env, key) == Err(KeyNotFound(key)) || MustGet(env, key) == Ok(env[key])
  {
  }

  // ---------------------------------------------------------------------------
  // The `value == defaultValue` short-circuit
  // ---------------------------------------------------------------------------

  /** When Get yields the default, every soft filtered variant returns the default
      whatever the filter list holds, even when the key is present and merely stores
      a value equal to the default. */
  lemma DefaultShortCircuit<Re>(lower: string -> string, re: Regexp<Re>, env: Environ,
                                key: string, defaultValue: string, list: seq<string>)
    requires Get(env, key, defaultValue) == defaultValue
    ensures GetIn(env, key, defaultValue, list) == defaultValue
    ensures GetInCaseInsensitive(lower, env, key, defaultValue, list) == defaultValue
    ensures GetInRegex(re, env, key, defaultValue, list) == defaultValue
    ensures GetExcept(env, key, defaultValue, list) == defaultValue
    ensures GetExceptCaseInsensitive(lower, env, key, defaultValue, list) == defaultValue
    ensures GetExceptRegex(re, env, key, defaultValue, list) == defaultValue
  {
  }

  /** The short-circuit compares values, not presence, but no caller can tell: each
      soft variant equals the definition that tests presence and then filters the
      stored value. (When the stored value equals the default, returning one is
      returning the other.) */
  lemma ShortCircuitUnobservable<Re>(lower: string -> string, re: Regexp<Re>, env: Environ,
                                     key: string, defaultValue: string, list: seq<string>)
    ensures GetIn(env, key, defaultValue, list)
         == if key in env && env[key] in list then env[key] else defaultValue
    ensures GetInCaseInsensitive(lower, env, key, defaultValue, list)
         == if key in env && FoldIn(lower, env[key], list) then env[key] else defaultValue
    ensures GetInRegex(re, env, key, defaultValue, list)
         == if key in env && MatchesBeforeBad(re, env[key], list) then env[key] else defaultValue
    ensures GetExcept(env, key, defaultValue, list)
         == if key in env && env[key] !in list then env[key] else defaultValue
    ensures GetExceptCaseInsensitive(lower, env, key, defaultValue, list)
         == if key in env && !FoldIn(lower, env[key], list) then env[key] else defaultValue
    ensures GetExceptRegex(re, env, key, defaultValue, list)
         == if key in env && NoneHalts(re, env[key], list) then env[key] else defaultValue
  {
  }

  // ---------------------------------------------------------------------------
  // Duality of In and Except
  // ---------------------------------------------------------------------------

  /** For a retrieved value other than the default and the same list, exactly one of
      GetIn and GetExcept returns it, and likewise for the case-insensitive pair. */
  lemma InExceptDuality(lower: string -> string, env: Environ, key: string,
                        defaultValue: string, list: seq<string>)
    requires Get(env, key, defaultValue) != defaultValue
    ensures var value := Get(env, key, defaultValue);
      (GetIn(env, key, defaultValue, list) == value)
        != (GetExcept(env, key, defaultValue, list) == value)
    ensures var value := Get(env, key, defaultValue);
      (GetInCaseInsensitive(lower, env, key, defaultValue, list) == value)
        != (GetExceptCaseInsensitive(lower, env, key, defaultValue, list) == value)
  {
  }

  /** The regex pair is dual only while the scan meets no bad pattern: a bad pattern
      reached first makes both of them return the default. */
  lemma RegexInExceptDuality<Re>(re: Regexp<Re>, env: Environ, key: string,
                                 defaultValue: string, regex: seq<string>)
    requires Get(env, key, defaultValue) != defaultValue
    ensures var value := Get(env, key, defaultValue);
      !BadBeforeMatch(re, value, regex) ==>
        (GetInRegex(re, env, key, defaultValue, regex) == value)
          != (GetExceptRegex(re, env, key, defaultValue, regex) == value)
    ensures var value := Get(env, key, defaultValue);
      BadBeforeMatch(re, value, regex) ==>
        GetInRegex(re, env, key, defaultValue, regex) == defaultValue
        && GetExceptRegex(re, env, key, defaultValue, regex) == defaultValue
  {
  }

  /** An empty deny-list lets every value other than the default through, and an
      empty allow-list lets none through. */
  lemma EmptyLists<Re>(lower: string -> string, re: Regexp<Re>, env: Environ,
                       key: string, defaultValue: string)
    ensures GetExcept(env, key, defaultValue, []) == Get(env, key, defaultValue)
    ensures GetExceptCaseInsensitive(lower, env, key, defaultValue, []) == Get(env, key, defaultValue)
    ensures GetExceptRegex(re, env, key, defaultValue, []) == Get(env, key, defaultValue)
    ensures GetIn(env, key, defaultValue, []) == defaultValue
    ensures GetInCaseInsensitive(lower, env, key, defaultValue, []) == defaultValue
    ensures GetInRegex(re, env, key, defaultValue, []) == defaultValue
  {
  }

  // ---------------------------------------------------------------------------
  // Exact against case-insensitive comparison
  // ---------------------------------------------------------------------------

  /** An exact match is a case-insensitive match: whatever GetIn lets through,
      GetInCaseInsensitive lets through too, and whatever GetExceptCaseInsensitive
      lets through, GetExcept lets through too; the same holds of the Must variants. */
  lemma ExactMatchIsFoldMatch(lower: string -> string, env: Environ, key: string,
                              defaultValue: string, list: seq<string>)
    ensures GetIn(env, key, defaultValue, list) != defaultValue ==>
      GetInCaseInsensitive(lower, env, key, defaultValue, list) == GetIn(env, key, defaultValue, list)
    ensures GetExceptCaseInsensitive(lower, env, key, defaultValue, list) != defaultValue ==>
      GetExcept(env, key, defaultValue, list) == GetExceptCaseInsensitive(lower, env, key, defaultValue, list)
    ensures MustGetIn(env, key, list).Ok? ==>
      MustGetInCaseInsensitive(lower, env, key, list) == MustGetIn(env, key, list)
    ensures MustGetExceptCaseInsensitive(lower, env, key, list).Ok? ==>
      MustGetExcept(env, key, list) == MustGetExceptCaseInsensitive(lower, env, key, list)
  {
  }

  // ---------------------------------------------------------------------------
  // Order dependence of the regex scan
  // ---------------------------------------------------------------------------

  /** A pattern that compiles and matches, preceded only by patterns that compile,
      ends the scan with a match, whatever comes after it. */
  lemma MatchBeforeBadPattern<Re>(re: Regexp<Re>, value: string,
                                                     patterns: seq<string>, i: int)
    requires 0 <= i < |patterns|
    requires re.compile(patterns[i]).Some? && re.matchString(re.compile(patterns[i]).value, value)
    requires forall j :: 0 <= j < i ==> re.compile(patterns[j]).Some?
    ensures MatchesBeforeBad(re, value, patterns)
  {
    match ScanRegex(re, value, patterns)
    case Matched =>
    case NoMatch =>
      assert Halts(re, patterns[i], value);
    case CompileFailed =>
      var k :| FirstHalt(re, value, patterns, k) && re.compile(patterns[k]).None?;
      if k > i {
        assert Halts(re, patterns[i], value);
      }
  }

  /** A pattern that fails to compile, preceded only by patterns that compile and do
      not match, ends the scan with a compile failure, even when a later pattern
      would match. */
  lemma BadPatternBeforeMatch<Re>(re: Regexp<Re>, value: string,
                                                     patterns: seq<string>, i: int)
    requires 0 <= i < |patterns|
    requires re.compile(patterns[i]).None?
    requires forall j :: 0 <= j < i ==> !Halts(re, patterns[j], value)
    ensures BadBeforeMatch(re, value, patterns)
    ensures !MatchesBeforeBad(re, value, patterns)
  {
  }

  /** For GetInRegex and MustGetInRegex: a match reached before any bad pattern
      yields the stored value; a bad pattern reached first yields the default
      (respectively the compile failure), even if a later pattern would match. */
  lemma RegexScanOrder<Re>(re: Regexp<Re>, env: Environ, key: string,
                           defaultValue: string, regex: seq<string>, i: int)
    requires key in env && env[key] != defaultValue && 0 <= i < |regex|
    requires forall j :: 0 <= j < i ==> re.compile(regex[j]).Some?
    ensures re.compile(regex[i]).Some? && re.matchString(re.compile(regex[i]).value, env[key]) ==>
      GetInRegex(re, env, key, defaultValue, regex) == env[key]
      && MustGetInRegex(re, env, key, regex) == Ok(env[key])
      && GetExceptRegex(re, env, key, defaultValue, regex) == defaultValue
      && MustGetExceptRegex(re, env, key, regex) == Err(ValueNotExcept(key))
    ensures re.compile(regex[i]).None? && (forall j :: 0 <= j < i ==> !Halts(re, regex[j], env[key])) ==>
      GetInRegex(re, env, key, defaultValue, regex) == defaultValue
      && MustGetInRegex(re, env, key, regex) == Err(RegexCompileFailed(key))
      && GetExceptRegex(re, env, key, defaultValue, regex) == defaultValue
      && MustGetExceptRegex(re, env, key, regex) == Err(RegexCompileFailed(key))
  {
    var value := env[key];
    if re.compile(regex[i]).Some? && re.matchString(re.compile(regex[i]).value, value) {
      MatchBeforeBadPattern(re, value, regex, i);
      var _ := ScanRegex(re, value, regex);
    }
    if re.compile(regex[i]).None? && (forall j :: 0 <= j < i ==> !Halts(re, regex[j], value)) {
      BadPatternBeforeMatch(re, value, regex, i);
      var _ := ScanRegex(re, value, regex);
    }
  }

  /** Patterns after the first match are never compiled: appending any patterns,
      bad ones included, to a list that already matches changes nothing. */
  lemma MatchIgnoresLaterPatterns<Re>(re: Regexp<Re>, value: string,
                                                         patterns: seq<string>, more: seq<string>)
    requires MatchesBeforeBad(re, value, patterns)
    ensures MatchesBeforeBad(re, value, patterns + more)
  {
    var all := patterns + more;
    var i :| FirstHalt(re, value, patterns, i) && re.compile(patterns[i]).Some?;
    forall j | 0 <= j <= i ensures all[j] == patterns[j] { }
    assert FirstHalt(re, value, all, i);
  }

  /** A bad pattern placed after a matching one does not make MustGetInRegex fail. */
  lemma LateBadPatternIgnored<Re>(re: Regexp<Re>, env: Environ, key: string,
                                  regex: seq<string>, bad: string)
    requires key in env && MatchesBeforeBad(re, env[key], regex)
    requires re.compile(bad).None?
    ensures MustGetInRegex(re, env, key, regex + [bad]) == Ok(env[key])
  {
    MatchIgnoresLaterPatterns(re, env[key], regex, [bad]);
  }

  // ---------------------------------------------------------------------------
  // The soft family is the Must family with a fallback
  // ---------------------------------------------------------------------------

  /** For a present key whose value differs from the default, each soft variant
      returns the value exactly when its Must counterpart succeeds, and the default
      whenever the Must counterpart fails. */
  lemma SoftIsMustWithFallback<Re>(lower: string -> string, re: Regexp<Re>, env: Environ,
                                   key: string, defaultValue: string, list: seq<string>)
    requires key in env && env[key] != defaultValue
    ensures GetIn(env, key, defaultValue, list)
         == if MustGetIn(env, key, list).Ok? then env[key] else defaultValue
    ensures GetInCaseInsensitive(lower, env, key, defaultValue, list)
         == if MustGetInCaseInsensitive(lower, env, key, list).Ok? then env[key] else defaultValue
    ensures GetInRegex(re, env, key, defaultValue, list)
         == if MustGetInRegex(re, env, key, list).Ok? then env[key] else defaultValue
    ensures GetExcept(env, key, defaultValue, list)
         == if MustGetExcept(env, key, list).Ok? then env[key] else defaultValue
    ensures GetExceptCaseInsensitive(lower, env, key, defaultValue, list)
         == if MustGetExceptCaseInsensitive(lower, env, key, list).Ok? then env[key] else defaultValue
    ensures GetExceptRegex(re, env, key, defaultValue, list)
         == if MustGetExceptRegex(re, env, key, list).Ok? then env[key] else defaultValue
  {
  }

  /** Every Must variant succeeds only with the stored value, and fails with
      KeyNotFound whenever the key is absent. */
  lemma MustSucceedsWithStoredValue<Re>(lower: string -> string, re: Regexp<Re>,
                                        env: Environ, key: string, list: seq<string>)
    ensures var rs := [MustGetIn(env, key, list), MustGetInCaseInsensitive(lower, env, key, list),
                       MustGetInRegex(re, env, key, list), MustGetExcept(env, key, list),
                       MustGetExceptCaseInsensitive(lower, env, key, list),
                       MustGetExceptRegex(re, env, key, list)];
      forall r :: r in rs ==>
        (r.Ok? ==> key in env && r.value == env[key]) && (key !in env ==> r == Err(KeyNotFound(key)))
  {
  }

  /** An empty allow-list always fails, and an empty deny-list never rejects. */
  lemma MustEmptyLists<Re>(lower: string -> string, re: Regexp<Re>, env: Environ, key: string)
    requires key in env
    ensures MustGetIn(env, key, []) == Err(ValueNotIn(key))
    ensures MustGetInCaseInsensitive(lower, env, key, []) == Err(ValueNotIn(key))
    ensures MustGetInRegex(re, env, key, []) == Err(ValueNotIn(key))
    ensures MustGetExcept(env, key, []) == Ok(env[key])
    ensures MustGetExceptCaseInsensitive(lower, env, key, []) == Ok(env[key])
    ensures MustGetExceptRegex(re, env, key, []) == Ok(env[key])
  {
  }
}
