/** A model of package env (env.go): lookups in the process environment with a
    fallback default, allow-lists, deny-lists and regular-expression filters, and
    "must" variants that fail instead of falling back.

    The host is made explicit:
    - the process environment is an immutable map from key to value (os.LookupEnv);
    - strings.ToLower is a parameter `lower`;
    - package regexp is a parameter `re` of type Regexp<Re>, whose `compile` may fail;
    - a panic is an `Err` of the Result datatype, carrying the failure kind and the key. */
module Env {

  datatype Option<+T> = None | Some(value: T)

  /** The process environment: a key is present iff it is in the map. */
  type Environ = map<string, string>

  /** The four panics of the Must family, each carrying the key. */
  datatype Error =
    | KeyNotFound(key: string)        // "env: can not find key"
    | ValueNotIn(key: string)         // "env: value is not in"
    | ValueNotExcept(key: string)     // "env: value is not except"
    | RegexCompileFailed(key: string) // "env: failed to compile regex"

  datatype Result<+T> = Ok(value: T) | Err(error: Error)

  /** The regular-expression engine: compile a pattern (None when it does not
      compile) and test whether a compiled expression matches somewhere in a string. */
  datatype Regexp<!Re> = Regexp(compile: string -> Option<Re>, matchString: (Re, string) -> bool)

  // ---------------------------------------------------------------------------
  // Specification predicates for the three kinds of filter
  // ---------------------------------------------------------------------------

  /** Some entry of `list` equals `value` once both are lowered. */
  ghost predicate FoldIn(lower: string -> string, value: string, list: seq<string>)
  {
    exists i :: 0 <= i < |list| && lower(list[i]) == lower(value)
  }

  /** The regex scan stops at `pattern`: it does not compile, or it matches `value`. */
  ghost predicate Halts<Re>(re: Regexp<Re>, pattern: string, value: string)
  {
    match re.compile(pattern)
    case None => true
    case Some(r) => re.matchString(r, value)
  }

  /** Index `i` is the first pattern at which the scan of `value` stops. */
  ghost predicate FirstHalt<Re>(re: Regexp<Re>, value: string, patterns: seq<string>, i: int)
  {
    && 0 <= i < |patterns|
    && Halts(re, patterns[i], value)
    && forall j :: 0 <= j < i ==> !Halts(re, patterns[j], value)
  }

  /** The scan reaches a pattern that compiles and matches before any bad pattern. */
  ghost predicate MatchesBeforeBad<Re>(re: Regexp<Re>, value: string, patterns: seq<string>)
  {
    exists i :: FirstHalt(re, value, patterns, i) && re.compile(patterns[i]).Some?
  }

  /** The scan reaches a pattern that does not compile before any match. */
  ghost predicate BadBeforeMatch<Re>(re: Regexp<Re>, value: string, patterns: seq<string>)
  {
    exists i :: FirstHalt(re, value, patterns, i) && re.compile(patterns[i]).None?
  }

  /** Every pattern compiles and none matches `value`. */
  ghost predicate NoneHalts<Re>(re: Regexp<Re>, value: string, patterns: seq<string>)
  {
    forall i :: 0 <= i < |patterns| ==> !Halts(re, patterns[i], value)
  }

  // ---------------------------------------------------------------------------
  // The early-exit `for _, v := range list` searches
  // ---------------------------------------------------------------------------

  /** The exact search of GetIn, GetExcept, MustGetIn and MustGetExcept. */
  function AnyEqual(value: string, list: seq<string>): (found: bool)
    ensures found <==> value in list
  {
    if list == [] then false
    else if value == list[0] then true
    else
      assert list == [list[0]] + list[1..];
      AnyEqual(value, list[1..])
  }

  /** The search after strings.ToLower on both sides, of the CaseInsensitive variants. */
  function AnyEqualFold(lower: string -> string, value: string, list: seq<string>): (found: bool)
    ensures found <==> FoldIn(lower, value, list)
  {
    if list == [] then false
    else if lower(value) == lower(list[0]) then true
    else
      var found := AnyEqualFold(lower, value, list[1..]);
      assert found ==> FoldIn(lower, value, list) by {
        if found {
          var i :| 0 <= i < |list[1..]| && lower(list[1..][i]) == lower(value);
          assert lower(list[i + 1]) == lower(value);
        }
      }
      found
  }

  /** How the regex scan of a value ends. */
  datatype Scan = Matched | CompileFailed | NoMatch

  /** The compile-then-match loop of the Regex variants: patterns are tried in order,
      and the scan stops at the first one that fails to compile or that matches. */
  function ScanRegex<Re>(re: Regexp<Re>, value: string, patterns: seq<string>): (s: Scan)
    ensures s == Matched <==> MatchesBeforeBad(re, value, patterns)
    ensures s == CompileFailed <==> BadBeforeMatch(re, value, patterns)
    ensures s == NoMatch <==> NoneHalts(re, value, patterns)
  {
    if patterns == [] then NoMatch
    else
      FirstHaltUnique(re, value, patterns);
      match re.compile(patterns[0])
      case None =>
        assert FirstHalt(re, value, patterns, 0);
        CompileFailed
      case Some(r) =>
        if re.matchString(r, value) then
          assert FirstHalt(re, value, patterns, 0);
          Matched
        else
          var s := ScanRegex(re, value, patterns[1..]);
          ShiftFirstHalt(re, value, patterns);
          s
  }

  /** At most one index is the first halt. */
  lemma FirstHaltUnique<Re>(re: Regexp<Re>, value: string, patterns: seq<string>)
    ensures forall i, k :: FirstHalt(re, value, patterns, i) && FirstHalt(re, value, patterns, k) ==> i == k
  {
  }

  /** When the first pattern does not halt, the scan of the whole list behaves as the
      scan of its tail, one index further on. */
  lemma ShiftFirstHalt<Re>(re: Regexp<Re>, value: string, patterns: seq<string>)
    requires |patterns| > 0 && !Halts(re, patterns[0], value)
    ensures MatchesBeforeBad(re, value, patterns) <==> MatchesBeforeBad(re, value, patterns[1..])
    ensures BadBeforeMatch(re, value, patterns) <==> BadBeforeMatch(re, value, patterns[1..])
    ensures NoneHalts(re, value, patterns) <==> NoneHalts(re, value, patterns[1..])
  {
  }

  // ---------------------------------------------------------------------------
  // Soft family: never fails, falls back to the default
  // ---------------------------------------------------------------------------

  /** Get: the stored value when the key is present (even the empty string),
      otherwise the default. */
  function Get(env: Environ, key: string, defaultValue: string): (r: string)
    ensures key in env ==> r == env[key]
    ensures key !in env ==> r == defaultValue
  {
    if key !in env then defaultValue else env[key]
  }

  /** GetIn: the value when it differs from the default and is in `allowed`. */
  function GetIn(env: Environ, key: string, defaultValue: string, allowed: seq<string>): (r: string)
    ensures r == defaultValue || (key in env && r == env[key] && r in allowed)
    ensures var value := Get(env, key, defaultValue);
      value != defaultValue ==> (r == value <==> value in allowed)
    ensures Get(env, key, defaultValue) == defaultValue ==> r == defaultValue
  {
    var value := Get(env, key, defaultValue);
    if value == defaultValue then defaultValue
    else if AnyEqual(value, allowed) then value
    else defaultValue
  }

  /** GetInCaseInsensitive: as GetIn, comparing lowered strings; what it returns is
      the value as stored, not its lowered form. */
  function GetInCaseInsensitive(lower: string -> string, env: Environ, key: string,
                                defaultValue: string, allowed: seq<string>): (r: string)
    ensures r == defaultValue || (key in env && r == env[key] && FoldIn(lower, r, allowed))
    ensures var value := Get(env, key, defaultValue);
      value != defaultValue ==> (r == value <==> FoldIn(lower, value, allowed))
    ensures Get(env, key, defaultValue) == defaultValue ==> r == defaultValue
  {
    var value := Get(env, key, defaultValue);
    if value == defaultValue then defaultValue
    else if AnyEqualFold(lower, value, allowed) then value
    else defaultValue
  }

  /** GetInRegex: the value when the in-order scan reaches a matching pattern before
      any pattern that fails to compile; otherwise the default. */
  function GetInRegex<Re>(re: Regexp<Re>, env: Environ, key: string,
                          defaultValue: string, regex: seq<string>): (r: string)
    ensures r == defaultValue || (key in env && r == env[key] && MatchesBeforeBad(re, r, regex))
    ensures var value := Get(env, key, defaultValue);
      value != defaultValue ==> (r == value <==> MatchesBeforeBad(re, value, regex))
    ensures Get(env, key, defaultValue) == defaultValue ==> r == defaultValue
  {
    var value := Get(env, key, defaultValue);
    if value == defaultValue then defaultValue
    else match ScanRegex(re, value, regex)
      case Matched => value
      case CompileFailed => defaultValue
      case NoMatch => defaultValue
  }

  /** GetExcept: the value when it differs from the default and is not in `except`. */
  function GetExcept(env: Environ, key: string, defaultValue: string, except: seq<string>): (r: string)
    ensures r == defaultValue || (key in env && r == env[key] && r !in except)
    ensures var value := Get(env, key, defaultValue);
      value != defaultValue ==> (r == value <==> value !in except)
    ensures Get(env, key, defaultValue) == defaultValue ==> r == defaultValue
  {
    var value := Get(env, key, defaultValue);
    if value == defaultValue then defaultValue
    else if AnyEqual(value, except) then defaultValue
    else value
  }

  /** GetExceptCaseInsensitive: as GetExcept, comparing lowered strings. */
  function GetExceptCaseInsensitive(lower: string -> string, env: Environ, key: string,
                                    defaultValue: string, except: seq<string>): (r: string)
    ensures r == defaultValue || (key in env && r == env[key] && !FoldIn(lower, r, except))
    ensures var value := Get(env, key, defaultValue);
      value != defaultValue ==> (r == value <==> !FoldIn(lower, value, except))
    ensures Get(env, key, defaultValue) == defaultValue ==> r == defaultValue
  {
    var value := Get(env, key, defaultValue);
    if value == defaultValue then defaultValue
    else if AnyEqualFold(lower, value, except) then defaultValue
    else value
  }

  /** GetExceptRegex: the value only when every pattern compiles and none matches;
      a bad pattern reached before any match gives the default as a match would. */
  function GetExceptRegex<Re>(re: Regexp<Re>, env: Environ, key: string,
                              defaultValue: string, regex: seq<string>): (r: string)
    ensures r == defaultValue || (key in env && r == env[key] && NoneHalts(re, r, regex))
    ensures var value := Get(env, key, defaultValue);
      value != defaultValue ==> (r == value <==> NoneHalts(re, value, regex))
    ensures Get(env, key, defaultValue) == defaultValue ==> r == defaultValue
  {
    var value := Get(env, key, defaultValue);
    if value == defaultValue then defaultValue
    else match ScanRegex(re, value, regex)
      case Matched => defaultValue
      case CompileFailed => defaultValue
      case NoMatch => value
  }

  // ---------------------------------------------------------------------------
  // Must family: fails instead of falling back; no default, no short-circuit
  // ---------------------------------------------------------------------------

  /** MustGet: the stored value, or KeyNotFound exactly when the key is absent. */
  function MustGet(env: Environ, key: string): (r: Result<string>)
    ensures r.Err? <==> key !in env
    ensures r.Err? ==> r.error == KeyNotFound(key)
    ensures r.Ok? ==> r.value == env[key]
  {
    if key !in env then Err(KeyNotFound(key)) else Ok(env[key])
  }

  /** MustGetIn: the stored value when it is in `allowed`; ValueNotIn otherwise. */
  function MustGetIn(env: Environ, key: string, allowed: seq<string>): (r: Result<string>)
    ensures key !in env ==> r == Err(KeyNotFound(key))
    ensures key in env ==> (r == Ok(env[key]) <==> env[key] in allowed)
    ensures key in env ==> (r == Err(ValueNotIn(key)) <==> env[key] !in allowed)
  {
    match MustGet(env, key)
    case Err(e) => Err(e)
    case Ok(value) => if AnyEqual(value, allowed) then Ok(value) else Err(ValueNotIn(key))
  }

  /** MustGetInCaseInsensitive: as MustGetIn, comparing lowered strings. */
  function MustGetInCaseInsensitive(lower: string -> string, env: Environ, key: string,
                                    allowed: seq<string>): (r: Result<string>)
    ensures key !in env ==> r == Err(KeyNotFound(key))
    ensures key in env ==> (r == Ok(env[key]) <==> FoldIn(lower, env[key], allowed))
    ensures key in env ==> (r == Err(ValueNotIn(key)) <==> !FoldIn(lower, env[key], allowed))
  {
    match MustGet(env, key)
    case Err(e) => Err(e)
    case Ok(value) => if AnyEqualFold(lower, value, allowed) then Ok(value) else Err(ValueNotIn(key))
  }

  /** MustGetInRegex: the stored value when a matching pattern comes before any bad
      one; RegexCompileFailed when a bad pattern comes first; ValueNotIn when every
      pattern compiles and none matches. */
  function MustGetInRegex<Re>(re: Regexp<Re>, env: Environ, key: string,
                              regex: seq<string>): (r: Result<string>)
    ensures key !in env ==> r == Err(KeyNotFound(key))
    ensures key in env ==> (r == Ok(env[key]) <==> MatchesBeforeBad(re, env[key], regex))
    ensures key in env ==> (r == Err(RegexCompileFailed(key)) <==> BadBeforeMatch(re, env[key], regex))
    ensures key in env ==> (r == Err(ValueNotIn(key)) <==> NoneHalts(re, env[key], regex))
  {
    match MustGet(env, key)
    case Err(e) => Err(e)
    case Ok(value) =>
      match ScanRegex(re, value, regex)
      case Matched => Ok(value)
      case CompileFailed => Err(RegexCompileFailed(key))
      case NoMatch => Err(ValueNotIn(key))
  }

  /** MustGetExcept: the stored value when it is not in `except`; ValueNotExcept otherwise. */
  function MustGetExcept(env: Environ, key: string, except: seq<string>): (r: Result<string>)
    ensures key !in env ==> r == Err(KeyNotFound(key))
    ensures key in env ==> (r == Ok(env[key]) <==> env[key] !in except)
    ensures key in env ==> (r == Err(ValueNotExcept(key)) <==> env[key] in except)
  {
    match MustGet(env, key)
    case Err(e) => Err(e)
    case Ok(value) => if AnyEqual(value, except) then Err(ValueNotExcept(key)) else Ok(value)
  }

  /** MustGetExceptCaseInsensitive: as MustGetExcept, comparing lowered strings. */
  function MustGetExceptCaseInsensitive(lower: string -> string, env: Environ, key: string,
                                        except: seq<string>): (r: Result<string>)
    ensures key !in env ==> r == Err(KeyNotFound(key))
    ensures key in env ==> (r == Ok(env[key]) <==> !FoldIn(lower, env[key], except))
    ensures key in env ==> (r == Err(ValueNotExcept(key)) <==> FoldIn(lower, env[key], except))
  {
    match MustGet(env, key)
    case Err(e) => Err(e)
    case Ok(value) =>
      if AnyEqualFold(lower, value, except) then Err(ValueNotExcept(key)) else Ok(value)
  }

  /** MustGetExceptRegex: the stored value when every pattern compiles and none
      matches; ValueNotExcept when a match comes before any bad pattern;
      RegexCompileFailed when a bad pattern comes first. */
  function MustGetExceptRegex<Re>(re: Regexp<Re>, env: Environ, key: string,
                                  regex: seq<string>): (r: Result<string>)
    ensures key !in env ==> r == Err(KeyNotFound(key))
    ensures key in env ==> (r == Ok(env[key]) <==> NoneHalts(re, env[key], regex))
    ensures key in env ==> (r == Err(RegexCompileFailed(key)) <==> BadBeforeMatch(re, env[key], regex))
    ensures key in env ==> (r == Err(ValueNotExcept(key)) <==> MatchesBeforeBad(re, env[key], regex))
  {
    match MustGet(env, key)
    case Err(e) => Err(e)
    case Ok(value) =>
      match ScanRegex(re, value, regex)
      case Matched => Err(ValueNotExcept(key))
      case CompileFailed => Err(RegexCompileFailed(key))
      case NoMatch => Ok(value)
  }
}
