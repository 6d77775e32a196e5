# env — a Dafny model of environment-variable lookup with defaults and filters

Package `env` reads one process environment variable by key. Fourteen functions are built on that lookup:

- `Get` returns the stored value, or a default when the key is unset.
- Six soft filtered variants keep the stored value only if it passes a filter; otherwise they return the default. The filters are an allow-list (`GetIn`), a deny-list (`GetExcept`) and regular expressions (`GetInRegex`, `GetExceptRegex`). The allow-list and deny-list filters also have case-insensitive forms.
- Seven `MustGet*` variants panic instead of falling back.

The model is three Dafny modules:

- `Env` (`env.dfy`) models every function of `env.go` as a pure Dafny function. Each early-exit `for … range` loop becomes a recursive search: `AnyEqual`, `AnyEqualFold` and `ScanRegex`. Each search is proved against a quantified specification: `FoldIn`, `MatchesBeforeBad`, `BadBeforeMatch` and `NoneHalts`.
- `EnvLemmas` (`env_lemmas.dfy`) proves what relates the functions to each other:
  - the default short-circuit;
  - the duality of In and Except;
  - that an exact match implies a case-insensitive match;
  - the order dependence of the regex scan;
  - that the soft family is the Must family with a fallback.
- `EnvScenarios` (`env_scenarios.dfy`) restates rows of the package's table-driven tests as lemmas.

How the host is represented:

- The process environment is an immutable `map<string, string>` argument. A key is present iff it is in the map, and an empty value is a real value.
- `strings.ToLower` is a parameter `lower: string -> string`. The scenarios instantiate it with ASCII lowering.
- Package `regexp` is a parameter `re: Regexp<Re>`. Its field `compile: string -> Option<Re>` returns `None` for a pattern that does not compile. Its field `matchString: (Re, string) -> bool` tests for a match.
- A panic is `Err(e)` of `Result<string>`. The error `e` carries the key and one of four kinds, named after the panic messages: `KeyNotFound`, `ValueNotIn`, `ValueNotExcept` and `RegexCompileFailed`.

The regex variants depend on the order of the patterns. Their doc comments (env.go:57-58, env.go:178-179) speak only of a value that matches or does not. So they could be read as "any malformed pattern is an error" and "the value passes iff some pattern matches". That is not what the code does. The loop stops at the first pattern that fails to compile or that matches (env.go:65-74, env.go:183-191). The model follows the code:

- A bad pattern after a matching one is never compiled and changes nothing (`LateBadPatternIgnored`).
- A bad pattern before any match makes the call fall back or fail (`RegexScanOrder`).

The filtered soft variants decide "absent" by comparing the retrieved value with the default (env.go:26). This looks like a quirk, but no caller can observe it. When the stored value equals the default, returning the default returns the stored value. `ShortCircuitUnobservable` proves that each soft variant equals the definition that tests presence first.

Every function here is deterministic, so repeated calls with the same environment and arguments give the same result.

## Model

| member | source | states |
|---|---|---|
| `Env.AnyEqual` | env.go:30-34 | the early-exit exact search finds a match iff the value occurs in the list |
| `Env.AnyEqualFold` | env.go:48-52 | the early-exit search on `strings.ToLower` of both sides succeeds iff some entry lowers to the value's lowering |
| `Env.ScanRegex` | env.go:65-74 | the in-order compile-then-match scan ends in a match iff the first pattern that stops the scan compiles (and so matches); it ends in a compile failure iff that first pattern does not compile; and it ends with no match iff every pattern compiles and none matches |
| `Env.Get` | env.go:12-19 | a present key yields its stored value, the empty string included, whatever the default; an absent key yields the default |
| `Env.GetIn` | env.go:24-37 | the result is the default or a stored value that is in the list; when the retrieved value differs from the default, it is returned iff it is in the list; when it equals the default, the default is returned |
| `Env.GetInCaseInsensitive` | env.go:42-55 | as GetIn, with membership up to `lower`; the value returned is the stored, un-lowered value |
| `Env.GetInRegex` | env.go:59-77 | the result is the default or the stored value; a value other than the default is returned iff the scan reaches a compiling, matching pattern before any bad pattern |
| `Env.GetExcept` | env.go:82-95 | the result is the default or a stored value that is not in the list; a value other than the default is returned iff it is not in the list |
| `Env.GetExceptCaseInsensitive` | env.go:100-113 | as GetExcept, with membership up to `lower`; the stored value is returned un-lowered |
| `Env.GetExceptRegex` | env.go:117-135 | a value other than the default is returned iff every pattern compiles and none matches it; a bad pattern reached first gives the default, as a match does |
| `Env.MustGet` | env.go:139-146 | fails with KeyNotFound(key) iff the key is absent; otherwise returns exactly the stored value |
| `Env.MustGetIn` | env.go:151-161 | absent key: KeyNotFound; present key: returns the stored value iff it is in the list, else ValueNotIn(key) |
| `Env.MustGetInCaseInsensitive` | env.go:166-176 | as MustGetIn, with membership up to `lower` |
| `Env.MustGetInRegex` | env.go:180-195 | absent key: KeyNotFound; otherwise returns the stored value iff a match comes before any bad pattern, fails with RegexCompileFailed iff a bad pattern comes before any match, and with ValueNotIn iff every pattern compiles and none matches |
| `Env.MustGetExcept` | env.go:200-210 | absent key: KeyNotFound; present key: returns the stored value iff it is not in the list, else ValueNotExcept(key) |
| `Env.MustGetExceptCaseInsensitive` | env.go:215-225 | as MustGetExcept, with membership up to `lower` |
| `Env.MustGetExceptRegex` | env.go:229-244 | absent key: KeyNotFound; otherwise returns the stored value iff every pattern compiles and none matches, fails with RegexCompileFailed iff a bad pattern comes first, and with ValueNotExcept iff a match comes first |
| `Env.ShiftFirstHalt` | env.go:65-74 | skipping a pattern that compiles and does not match leaves the outcome of the scan unchanged |
| `EnvLemmas.MustGetAgreesWithGet` | env.go:139-146 | MustGet succeeds with exactly what Get returns for any default, and fails exactly where Get falls back |
| `EnvLemmas.DefaultShortCircuit` | env.go:25-28 | when Get yields the default, all six soft variants return the default for any filter list, even if the key is present with that value |
| `EnvLemmas.ShortCircuitUnobservable` | env.go:24-28 | each soft variant equals the presence-based definition, so comparing with the default instead of testing presence is not observable |
| `EnvLemmas.InExceptDuality` | env.go:82-95 | for a retrieved value other than the default, exactly one of GetIn and GetExcept returns it, and exactly one of the two case-insensitive variants |
| `EnvLemmas.RegexInExceptDuality` | env.go:123-134 | GetInRegex and GetExceptRegex are dual unless a bad pattern is reached first, in which case both return the default |
| `EnvLemmas.EmptyLists` | env.go:88-94 | an empty deny-list lets every retrieved value through, and an empty allow-list lets none through |
| `EnvLemmas.ExactMatchIsFoldMatch` | env.go:48-52 | whatever GetIn or MustGetIn accepts, the case-insensitive variant accepts too; whatever GetExceptCaseInsensitive or MustGetExceptCaseInsensitive accepts, the exact variant accepts too |
| `EnvLemmas.MatchBeforeBadPattern` | env.go:65-73 | a compiling, matching pattern preceded only by compiling patterns ends the scan with a match, whatever comes after it |
| `EnvLemmas.BadPatternBeforeMatch` | env.go:65-69 | a pattern that fails to compile, preceded only by compiling, non-matching patterns, ends the scan with a compile failure, even if a later pattern would match |
| `EnvLemmas.RegexScanOrder` | env.go:183-194 | the first of a match and a bad pattern decides all four regex variants: value / Ok / default / ValueNotExcept, or default / RegexCompileFailed for all |
| `EnvLemmas.MatchIgnoresLaterPatterns` | env.go:183-191 | once a match is reached, any patterns appended after the list do not change the outcome |
| `EnvLemmas.LateBadPatternIgnored` | env.go:180-195 | a bad pattern after a matching one does not make MustGetInRegex fail |
| `EnvLemmas.SoftIsMustWithFallback` | env.go:151-161 | for a present key whose value differs from the default, each soft variant returns the value iff its Must counterpart succeeds, and the default otherwise |
| `EnvLemmas.MustSucceedsWithStoredValue` | env.go:200-210 | every Must variant succeeds only with exactly the stored value and fails with KeyNotFound whenever the key is absent |
| `EnvLemmas.MustEmptyLists` | env.go:151-161 | with a present key, an empty allow-list always fails with ValueNotIn, and an empty deny-list always succeeds |
| `EnvScenarios.GetScenarios` | get_test.go:11-40 | unset key gives the default (also the empty default); a set value, the empty one included, wins over the default |
| `EnvScenarios.MustGetScenarios` | must_get_test.go:11-32 | unset key fails with KeyNotFound; a set value, the empty one included, is returned |
| `EnvScenarios.MustGetInScenarios` | must_get_in_test.go:12-72 | the eight MustGetIn test rows: unset key fails, an empty list fails, an upper-cased copy does not match exactly, a listed value (also empty) is returned |
| `EnvScenarios.GetInCaseInsensitiveScenarios` | get_in_case_insensitive_test.go:72-116 | with ASCII lowering, an upper-cased allow entry returns the stored value un-lowered, an upper-cased default entry does not match, and a listed empty value is returned |
| `EnvScenarios.StoredDefaultScenario` | env.go:83-86 | a key stored with the default's value gives the default even when that value is on the deny-list |
| `EnvScenarios.RegexScenarios` | env.go:183-191 | for an engine on which one pattern fails to compile and another matches: the bad pattern alone fails, a bad pattern first falls back, and a matching pattern first hides the bad one |

## Left out

- `os.LookupEnv` is not modelled. The environment is an immutable map argument. Setting and restoring variables in the tests is not part of the model.
- Package `regexp` is not modelled. Compilation and matching are the uninterpreted fields of `Regexp<Re>`. This also leaves out the unanchored matching that the tests rely on, and the concrete patterns of the regex tests (such as `t([a-z]+)e`).
- `strings.ToLower` is not modelled. It is the parameter `lower`, so Unicode case folding is not captured. The scenarios use ASCII lowering only.
- The panic/recover control flow is not modelled. The exact panic message text is not modelled either. A failure is an `Err` holding the failure kind and the key.
- Concurrency is left out. The cost of recompiling every pattern on each call is left out too.
