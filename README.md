# Switcher configuration loader — Dafny model

A connection switcher reads a JSON configuration at startup. The configuration has
a log level and a list of switching rules. Each rule has a name, a listen address,
a regexp-mode flag, a first-packet timeout, a blacklist and a list of forwarding
targets. Each target has an address and a pattern. This project models the
validating part of that startup: the rule check `(*ruleStructure).verify` and the
part of `init` that checks the decoded configuration. It proves what the code
promises about check order, the timeout default, the matchers stored in the
targets, halting at the first failure, and what is left unchanged.

Files:

- `wrappers.dfy` (module `Wrappers`): `Option`, and `Outcome`. `Outcome` is Go's
  `error` return: `Pass` for nil, `Fail(e)` for an error.
- `rules.dfy` (module `Rules`): the rule and target data, and the error datatype
  `EmptyName | InvalidListen | InvalidTargets | InvalidAddress(i) | InvalidRegexp(i)`.
  `VerifyRule` is the check stated on values. `Rule.Verify` runs it in place on
  `Rule`/`Target` objects, as the Go code does through its pointers, and is proved
  to leave exactly the state `VerifyRule` gives. The lemmas prove what the check
  promises.
- `loader.dfy` (module `Loader`): `LoadConfig` is the startup checks on values:
  empty rule list, then log level, then every rule in index order.
  `Config.Load` runs them in place on `Config`/`Rule`/`Target` objects. It is
  proved to leave the state that `LoadConfig` gives, and the lemmas prove what
  startup promises.

Two foreign calls become parameters:

- `regexp.Compile` is a `Compiler`, a total function from a pattern to
  `Some(matcher)` or `None`. `Matcher` is an opaque type.
- `logrus.ParseLevel` is a `LevelParser`, a predicate on the level string.

`logrus.Fatalf`, which ends the process, becomes a failed `Outcome`. The failing
rule's index is carried in `RuleFailed(i, cause)`.

An empty target list is reported as `InvalidTargets` only when the name and listen
address are non-empty, because those checks come first
(Swichers/Switcher-Mac/config.go:62-70).

## Model

| member | source | states |
|---|---|---|
| `Rules.Rule.Verify` | Swichers/Switcher-Mac/config.go:61-89 | Runs `verify` in place. Leaves the rule's targets sequence as it was. The rule's new value and the returned outcome are exactly those of `VerifyRule` on the old value. |
| `Rules.Rule.VerifyTargets` | Swichers/Switcher-Mac/config.go:76-88 | The target loop in place. Writes each compiled matcher into its own target object and stops at the first target it rejects. The new target values and the outcome are those of `CheckTargets`. |
| `Rules.Target.constructor` | Swichers/Switcher-Mac/config.go:21-25 | A target as the JSON decoder allocates it: the given pattern and address, and no matcher yet. |
| `Rules.Rule.constructor` | Swichers/Switcher-Mac/config.go:17-28 | A rule as the JSON decoder allocates it, over distinct target objects. Its value has exactly the given fields and the values of those targets, and it is `Valid`. |
| `Rules.CheckTargetsFirstFailure` | Swichers/Switcher-Mac/config.go:76-88 | Proved by induction. The loop succeeds iff every target has an address and, in regexp mode, a compilable pattern. On success every target holds its `Processed` form. On failure it reports the error of the first rejected target `k`. Every target before `k` is processed, and `k` and all later targets are untouched. |
| `Rules.VerifyHeaderOrder` | Swichers/Switcher-Mac/config.go:62-70 | `EmptyName` iff the name is empty. `InvalidListen` iff the name is set and listen is empty. `InvalidTargets` iff both are set and there are no targets. A rule rejected by these checks is returned unchanged. |
| `Rules.VerifyTimeoutDefault` | Swichers/Switcher-Mac/config.go:71-75 | The timeout becomes 5000 exactly when the header checks pass, regexp mode is on and the timeout is 0. Otherwise it keeps its value, including 0 when regexp mode is off. The default stays in place when a target check fails. |
| `Rules.VerifyFrame` | Swichers/Switcher-Mac/config.go:61-89 | Name, listen, regexp flag, blacklist, number of targets, and every target's pattern and address are never changed. |
| `Rules.VerifyTargetFailure` | Swichers/Switcher-Mac/config.go:76-86 | `InvalidAddress(i)` or `InvalidRegexp(i)` names a valid index `i`, and the error kind matches the reason target `i` failed. Every earlier target has an address and, in regexp mode, compiled and now holds the compile result. Target `i` and all later targets are unchanged. |
| `Rules.VerifySuccess` | Swichers/Switcher-Mac/config.go:62-88 | `verify` succeeds iff the header checks pass and every target has an address and, in regexp mode, a compilable pattern. On success every target has an address. In regexp mode each target's matcher is the compile result of its own pattern. Otherwise the targets are untouched. |
| `Rules.VerifyPlainModeIgnoresPatterns` | Swichers/Switcher-Mac/config.go:80-86 | With regexp mode off, the targets (and so their matchers) are untouched. No failure is `InvalidRegexp`. The result is the same for every compiler. |
| `Rules.CheckTargetsIgnoreCompiler` | Swichers/Switcher-Mac/config.go:76-87 | With regexp mode off, the target loop's result does not depend on the compiler. |
| `Rules.VerifyIdempotent` | Swichers/Switcher-Mac/config.go:61-89 | A rule that passed `verify` passes a second run and is not changed by it. |
| `Loader.Config.Load` | Swichers/Switcher-Mac/config.go:45-58 | Startup validation in place. The new rule values and the outcome are exactly those of `LoadConfig` on the old configuration value. The configuration stays `Valid` (distinct rules, disjoint targets), and every rule keeps its own target objects. |
| `Loader.Config.VerifyAll` | Swichers/Switcher-Mac/config.go:54-58 | The rule loop in place. The new rule values and the outcome are those of `VerifyRules`. Every rule stays `Valid` and keeps the target objects it started with. |
| `Loader.VerifyRuleAt` | Swichers/Switcher-Mac/config.go:55 | `verify` on rule `i` changes rule `i` as `VerifyRule` says. Every other rule keeps its value and its target objects, because no target belongs to two rules. |
| `Loader.VerifyRulesFirstFailure` | Swichers/Switcher-Mac/config.go:54-58 | Proved by induction. The rule loop succeeds iff every rule passes `verify`, and then holds each rule's verified form. On failure it reports `RuleFailed(k, e)` for the first failing rule `k`, where `e` is that rule's error. Every earlier rule passed and holds its verified form. Rule `k` holds what `verify` left. No later rule is touched. |
| `Loader.LoadCheckOrder` | Swichers/Switcher-Mac/config.go:45-51 | `EmptyRules` iff there are no rules. `InvalidLogLevel` iff there are rules and the level is rejected. In both cases nothing is changed. The log level and the number of rules never change. |
| `Loader.LoadStopsAtFirstFailure` | Swichers/Switcher-Mac/config.go:54-58 | `RuleFailed(i, e)` means the level was accepted and `i` is a valid index. Every rule before `i` passed `verify` and holds its verified form. Rule `i` failed with `e` and holds what `verify` left. Every rule after `i` is unchanged. |
| `Loader.LoadSuccess` | Swichers/Switcher-Mac/config.go:45-58 | Startup succeeds iff there are rules, the level is accepted and every rule passes `verify`. Then each rule holds its verified form. |
| `Loader.LoadIdempotent` | Swichers/Switcher-Mac/config.go:45-58 | An accepted configuration is accepted again, unchanged. |
| `Loader.MinimalConfigLoads` | Swichers/Switcher-Mac/config.go:45-88 | One rule in plain mode with one target that has an address, and an accepted level, loads successfully. It keeps its one rule and one target, and its timeout stays 0. |

## Left out

- Flag parsing and reading the file (config.go:33-39): command line and file I/O.
- `json.Unmarshal` (config.go:41-43): the decoded `Config` object is the loader's input.
  - The decoder never shares a pointer, so `Rule.Verify` requires distinct target objects (`Rule.Valid`).
  - For the same reason, `Config.Load` requires distinct rule objects whose targets are disjoint (`Config.Valid`).
  - Aliased targets or rules are not modelled.
- `regexp.Compile` internals (config.go:81) and its error text. The compiler is a parameter, modelled as a pure function, so compiling the same pattern twice gives the same matcher. In Go each call allocates a new `*regexp.Regexp`. This affects `VerifyIdempotent`, which compares matchers by value.
- `logrus.ParseLevel`'s accepted names and `logrus.SetLevel` (config.go:48-52): the logging library. The parser is a predicate parameter, and the chosen level is not stored.
- `logrus.Fatalf` (config.go:38-56): the process exit becomes a failed outcome. Nothing after a failure runs in the model either.
- Error message strings (config.go:63-83): errors are datatype values that carry the index.
- Blacklist contents (config.go:27): the code does nothing with them. They are carried as an opaque `map<string, bool>`.
- A JSON `null` configuration, `null` rule element or `null` target (config.go:41, 55, 62, 76) would make Go panic. The model's object references are never null.
- The global `config` variable (config.go:30): the loader works on the `Config` object it is given.
