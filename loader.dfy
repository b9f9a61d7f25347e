/**
 * The validating part of the switcher's startup (`init` in
 * Swichers/Switcher-Mac/config.go) on an already decoded `configStructure`:
 * reject an empty rule list, reject an unknown log level, then `verify`
 * each rule in index order and stop at the first that fails.
 *
 * The process-ending `logrus.Fatalf` becomes a failed `Outcome`; the
 * log-level parser of the logging library is a parameter.
 */
module Loader {
  import opened Wrappers
  import opened Rules

  /** Why startup refuses a configuration. */
  datatype LoadError =
    | EmptyRules
    | InvalidLogLevel
    | RuleFailed(pos: nat, cause: RuleError)

  /** `logrus.ParseLevel`: true when the level string is accepted. */
  type LevelParser = string -> bool

  /** The state of a decoded `configStructure`. */
  datatype ConfigValue = ConfigValue(logLevel: string, rules: seq<RuleValue>)

  // ---------------------------------------------------------------------------
  // Startup on values
  // ---------------------------------------------------------------------------

  /**
   * The rule loop of `init`, from index `i` on: `verify` each rule in turn,
   * keeping the rule as `verify` left it, and stop at the first failure
   * with that rule's index.
   */
  function VerifyRules(rs: seq<RuleValue>, compile: Compiler, i: nat): (seq<RuleValue>, Outcome<LoadError>)
    requires i <= |rs|
    decreases |rs| - i
  {
    if i == |rs| then (rs, Pass)
    else
      var (r', outcome) := VerifyRule(rs[i], compile);
      if outcome.Fail? then (rs[i := r'], Fail(RuleFailed(i, outcome.error)))
      else VerifyRules(rs[i := r'], compile, i + 1)
  }

  /** The validating part of `init`: the configuration as left behind, and the outcome. */
  function LoadConfig(c: ConfigValue, parseLevel: LevelParser, compile: Compiler): (ConfigValue, Outcome<LoadError>)
  {
    if |c.rules| == 0 then (c, Fail(EmptyRules))
    else if !parseLevel(c.logLevel) then (c, Fail(InvalidLogLevel))
    else
      var (rs, outcome) := VerifyRules(c.rules, compile, 0);
      (c.(rules := rs), outcome)
  }

  /** One rule of the loop passing `verify`: it is replaced by its verified form and the loop moves on. */
  lemma VerifyRulesAccept(rs: seq<RuleValue>, compile: Compiler, i: nat)
    requires i < |rs| && VerifyRule(rs[i], compile).1 == Pass
    ensures VerifyRules(rs, compile, i) == VerifyRules(rs[i := VerifyRule(rs[i], compile).0], compile, i + 1)
  {
  }

  /**
   * The rule loop from index `i` leaves rules before `i` alone, replaces a
   * passing prefix by its verified forms, stops at the first rule `verify`
   * rejects with that rule's index and error, keeps that rule as `verify`
   * left it, and never touches a later rule.
   */
  lemma {:induction false} VerifyRulesFirstFailure(rs: seq<RuleValue>, compile: Compiler, i: nat)
    requires i <= |rs|
    ensures var (us, outcome) := VerifyRules(rs, compile, i);
      && |us| == |rs|
      && (forall j :: 0 <= j < i ==> us[j] == rs[j])
      && (outcome.Fail? ==> outcome.error.RuleFailed?)
      && (outcome == Pass <==> forall j :: i <= j < |rs| ==> VerifyRule(rs[j], compile).1 == Pass)
      && (outcome == Pass ==> forall j :: i <= j < |rs| ==> us[j] == VerifyRule(rs[j], compile).0)
      && (outcome.Fail? && outcome.error.RuleFailed? ==>
            var k := outcome.error.pos;
            && i <= k < |rs|
            && VerifyRule(rs[k], compile) == (us[k], Fail(outcome.error.cause))
            && (forall j :: i <= j < k ==> VerifyRule(rs[j], compile) == (us[j], Pass))
            && (forall j :: k < j < |rs| ==> us[j] == rs[j]))
    decreases |rs| - i
  {
    if i < |rs| && VerifyRule(rs[i], compile).1 == Pass {
      var rs' := rs[i := VerifyRule(rs[i], compile).0];
      VerifyRulesFirstFailure(rs', compile, i + 1);
      assert forall j :: i < j < |rs| ==> rs'[j] == rs[j];
    }
  }

  // ---------------------------------------------------------------------------
  // What startup promises
  // ---------------------------------------------------------------------------

  /**
   * The empty rule list is rejected first and the log level second; each of
   * these errors is reported exactly when its check is the first to fail,
   * and then no rule has been verified or changed. The log level and the
   * number of rules never change.
   */
  lemma LoadCheckOrder(c: ConfigValue, parseLevel: LevelParser, compile: Compiler)
    ensures var (c', outcome) := LoadConfig(c, parseLevel, compile);
      && c'.logLevel == c.logLevel && |c'.rules| == |c.rules|
      && (outcome == Fail(EmptyRules) <==> c.rules == [])
      && (outcome == Fail(InvalidLogLevel) <==> c.rules != [] && !parseLevel(c.logLevel))
      && (outcome.Fail? && !outcome.error.RuleFailed? ==> c' == c)
  {
    if |c.rules| != 0 && parseLevel(c.logLevel) {
      VerifyRulesFirstFailure(c.rules, compile, 0);
    }
  }

  /**
   * A rule failure names a valid index `i` of a configuration with rules and
   * an accepted log level: every rule before `i` passed `verify` and holds
   * its verified form, rule `i` is the one `verify` rejected with the error
   * reported and holds what `verify` left, and no later rule was changed.
   */
  lemma LoadStopsAtFirstFailure(c: ConfigValue, parseLevel: LevelParser, compile: Compiler)
    ensures var (c', outcome) := LoadConfig(c, parseLevel, compile);
      outcome.Fail? && outcome.error.RuleFailed? ==>
        var i := outcome.error.pos;
        && parseLevel(c.logLevel)
        && i < |c.rules| && |c'.rules| == |c.rules|
        && (forall j :: 0 <= j < i ==> VerifyRule(c.rules[j], compile) == (c'.rules[j], Pass))
        && VerifyRule(c.rules[i], compile) == (c'.rules[i], Fail(outcome.error.cause))
        && (forall j :: i < j < |c.rules| ==> c'.rules[j] == c.rules[j])
  {
    if |c.rules| != 0 && parseLevel(c.logLevel) {
      VerifyRulesFirstFailure(c.rules, compile, 0);
    }
  }

  /**
   * Startup succeeds exactly when there are rules, the log level is accepted
   * and every rule passes `verify`; then every rule holds its verified form.
   */
  lemma LoadSuccess(c: ConfigValue, parseLevel: LevelParser, compile: Compiler)
    ensures var (c', outcome) := LoadConfig(c, parseLevel, compile);
      && (outcome == Pass <==>
            && c.rules != [] && parseLevel(c.logLevel)
            && forall j :: 0 <= j < |c.rules| ==> VerifyRule(c.rules[j], compile).1 == Pass)
      && (outcome == Pass ==>
            && |c'.rules| == |c.rules|
            && forall j :: 0 <= j < |c.rules| ==> c'.rules[j] == VerifyRule(c.rules[j], compile).0)
  {
    if |c.rules| != 0 && parseLevel(c.logLevel) {
      VerifyRulesFirstFailure(c.rules, compile, 0);
    }
  }

  /**
   * A configuration that startup accepted is accepted again unchanged: what
   * is installed is already in its validated form.
   */
  lemma LoadIdempotent(c: ConfigValue, parseLevel: LevelParser, compile: Compiler)
    requires LoadConfig(c, parseLevel, compile).1 == Pass
    ensures LoadConfig(LoadConfig(c, parseLevel, compile).0, parseLevel, compile) == (LoadConfig(c, parseLevel, compile).0, Pass)
  {
    var c' := LoadConfig(c, parseLevel, compile).0;
    LoadSuccess(c, parseLevel, compile);
    LoadCheckOrder(c, parseLevel, compile);
    forall j | 0 <= j < |c.rules|
      ensures VerifyRule(c'.rules[j], compile) == (c'.rules[j], Pass)
    {
      VerifyIdempotent(c.rules[j], compile);
    }
    LoadSuccess(c', parseLevel, compile);
    var rs := LoadConfig(c', parseLevel, compile).0.rules;
    assert rs == c'.rules;
  }

  /**
   * The smallest valid document: one rule with regexp mode off and one
   * target with an address loads, keeps its single rule and target, and its
   * timeout stays 0.
   */
  lemma MinimalConfigLoads(level: string, parseLevel: LevelParser, compile: Compiler,
                           name: string, listen: string, pattern: string, address: string)
    requires parseLevel(level) && name != "" && listen != "" && address != ""
    ensures var rule := RuleValue(name, listen, false, [TargetValue(pattern, None, address)], 0, map[]);
      LoadConfig(ConfigValue(level, [rule]), parseLevel, compile) == (ConfigValue(level, [rule]), Pass)
  {
    var rule := RuleValue(name, listen, false, [TargetValue(pattern, None, address)], 0, map[]);
    assert CheckTargets(rule.targets, false, compile, 1) == (rule.targets, Pass);
    assert CheckTargets(rule.targets, false, compile, 0) == (rule.targets, Pass);
    assert WithDefaultTimeout(rule) == rule;
    assert VerifyRule(rule, compile) == (rule, Pass);
    assert [rule][0 := rule] == [rule];
    assert VerifyRules([rule], compile, 1) == ([rule], Pass);
    assert VerifyRules([rule], compile, 0) == ([rule], Pass);
  }

  // ---------------------------------------------------------------------------
  // The objects, updated in place
  // ---------------------------------------------------------------------------

  /** Every target object of the rules `rs`. */
  ghost function TargetsOf(rs: seq<Rule>): set<Target>
    reads rs
  {
    if rs == [] then {} else rs[0].TargetSet() + TargetsOf(rs[1..])
  }

  /** The targets of rule `k` are among the targets of the rules. */
  lemma {:induction false} TargetsOfContains(rs: seq<Rule>, k: nat)
    requires k < |rs|
    ensures rs[k].TargetSet() <= TargetsOf(rs)
  {
    if k > 0 {
      TargetsOfContains(rs[1..], k - 1);
    }
  }

  /** The values of a sequence of rules, in order. */
  ghost function RuleValues(rs: seq<Rule>): (vs: seq<RuleValue>)
    reads rs, TargetsOf(rs)
    ensures |vs| == |rs| && forall k :: 0 <= k < |rs| ==> vs[k] == rs[k].Value()
  {
    if rs == [] then [] else [rs[0].Value()] + RuleValues(rs[1..])
  }

  /** Rules whose values are, one by one, those of `vs` have the values `vs`. */
  lemma RuleValuesPointwise(rs: seq<Rule>, vs: seq<RuleValue>)
    requires |rs| == |vs| && forall k :: 0 <= k < |rs| ==> rs[k].Value() == vs[k]
    ensures RuleValues(rs) == vs
  {
  }

  /** A rule none of whose objects changed has the same value. */
  twostate lemma RuleValueUnchanged(r: Rule)
    requires unchanged(r) && unchanged(r.targets)
    ensures r.Value() == old(r.Value())
  {
    assert TargetValues(r.targets) == old(TargetValues(r.targets));
  }

  /** The target sequences of the rules `rs`, in order. */
  ghost function TargetSeqs(rs: seq<Rule>): (tss: seq<seq<Target>>)
    reads rs
    ensures |tss| == |rs| && forall k :: 0 <= k < |rs| ==> tss[k] == rs[k].targets
  {
    if rs == [] then [] else [rs[0].targets] + TargetSeqs(rs[1..])
  }

  /** No target object occurs in both `a` and `b`. */
  ghost predicate Disjoint(a: seq<Target>, b: seq<Target>)
  {
    forall t :: t in a ==> t !in b
  }

  /** Distinct rule objects whose target sequences, given by `tss`, share no target. */
  ghost predicate Separated(rs: seq<Rule>, tss: seq<seq<Target>>)
    requires |tss| == |rs|
  {
    forall i, j :: 0 <= i < |rs| && 0 <= j < |rs| && i != j ==> rs[i] != rs[j] && Disjoint(tss[i], tss[j])
  }

  /**
   * `verify` on rule `i` of well-separated rules: rule `i` changes as
   * `VerifyRule` says, and every other rule keeps its value and its targets.
   */
  method VerifyRuleAt(rules: seq<Rule>, i: nat, ghost targetsAt: seq<seq<Target>>, compile: Compiler)
    returns (outcome: Outcome<RuleError>)
    requires i < |rules| && |targetsAt| == |rules| && Separated(rules, targetsAt)
    requires forall k :: 0 <= k < |rules| ==> rules[k].Valid() && rules[k].targets == targetsAt[k]
    modifies rules[i], rules[i].targets
    ensures forall k :: 0 <= k < |rules| ==> rules[k].Valid() && rules[k].targets == targetsAt[k]
    ensures (rules[i].Value(), outcome) == VerifyRule(old(rules[i].Value()), compile)
    ensures forall k :: 0 <= k < |rules| && k != i ==> rules[k].Value() == old(rules[k].Value())
  {
    outcome := rules[i].Verify(compile);
    forall k | 0 <= k < |rules| && k != i
      ensures unchanged(rules[k]) && unchanged(rules[k].targets)
    {
      assert rules[k] != rules[i] && Disjoint(targetsAt[k], targetsAt[i]);
      forall j | 0 <= j < |rules[k].targets| ensures unchanged(rules[k].targets[j]) {
        assert rules[k].targets[j] !in old(rules[i].targets);
      }
    }
    forall k | 0 <= k < |rules| && k != i
      ensures rules[k].Value() == old(rules[k].Value())
    {
      RuleValueUnchanged(rules[k]);
    }
  }

  /** Rules whose target sequences are still the separated `tss` are separated. */
  lemma SeparatedKept(rs: seq<Rule>, tss: seq<seq<Target>>)
    requires |tss| == |rs| && Separated(rs, tss)
    requires forall k :: 0 <= k < |rs| ==> rs[k].targets == tss[k]
    ensures Separated(rs, TargetSeqs(rs))
  {
    assert TargetSeqs(rs) == tss;
  }

  /** The decoded `configStructure`. */
  class Config {
    var logLevel: string
    var rules: seq<Rule>

    /**
     * As the decoder builds it: every rule is its own object with its own
     * targets, and no target object belongs to two rules.
     */
    ghost predicate Valid()
      reads this, rules
    {
      && (forall k :: 0 <= k < |rules| ==> rules[k].Valid())
      && Separated(rules, TargetSeqs(rules))
    }

    ghost function Value(): ConfigValue
      reads this, rules, TargetsOf(rules)
    {
      ConfigValue(logLevel, RuleValues(rules))
    }

    /**
     * The validating part of `init`: reject an empty rule list, reject an
     * unknown log level, then `verify` the rules in index order, stopping at
     * the first that fails. The new state and the outcome are those of
     * `LoadConfig`.
     */
    method Load(parseLevel: LevelParser, compile: Compiler) returns (outcome: Outcome<LoadError>)
      requires Valid()
      modifies rules, TargetsOf(rules)
      ensures Valid()
      ensures forall k :: 0 <= k < |rules| ==> rules[k].Valid() && rules[k].targets == old(rules[k].targets)
      ensures (Value(), outcome) == LoadConfig(old(Value()), parseLevel, compile)
    {
      if |rules| == 0 { return Fail(EmptyRules); }
      if !parseLevel(logLevel) { return Fail(InvalidLogLevel); }
      ghost var tss := TargetSeqs(rules);
      forall k | 0 <= k < |rules| ensures rules[k].TargetSet() <= TargetsOf(rules) {
        TargetsOfContains(rules, k);
      }
      outcome := VerifyAll(compile, tss);
      SeparatedKept(rules, tss);
    }

    /**
     * The rule loop of `init`: `verify` the rules in index order and stop at
     * the first that fails, reporting its index. The rules change as
     * `VerifyRules` says, each keeps its target objects (given in
     * `targetsAt`), and no rule after the failing one is touched.
     */
    method VerifyAll(compile: Compiler, ghost targetsAt: seq<seq<Target>>) returns (outcome: Outcome<LoadError>)
      requires |targetsAt| == |rules| && Separated(rules, targetsAt)
      requires forall k :: 0 <= k < |rules| ==> rules[k].Valid() && rules[k].targets == targetsAt[k]
      requires forall k :: 0 <= k < |rules| ==> rules[k].TargetSet() <= TargetsOf(rules)
      modifies rules, TargetsOf(rules)
      ensures forall k :: 0 <= k < |rules| ==> rules[k].Valid() && rules[k].targets == targetsAt[k]
      ensures (RuleValues(rules), outcome) == VerifyRules(old(RuleValues(rules)), compile, 0)
    {
      ghost var start := RuleValues(rules);
      ghost var current := start;
      ghost var expected := VerifyRules(start, compile, 0);
      var i := 0;
      outcome := Pass;
      while i < |rules|
        invariant 0 <= i <= |rules| && |current| == |rules|
        invariant forall k :: 0 <= k < |rules| ==> rules[k].Valid() && rules[k].targets == targetsAt[k]
        invariant forall k :: 0 <= k < |rules| ==> rules[k].Value() == current[k]
        invariant expected == VerifyRules(current, compile, i)
      {
        ghost var before := current;
        var result := VerifyRuleAt(rules, i, targetsAt, compile);
        current := current[i := rules[i].Value()];
        if result.Fail? {
          outcome := Fail(RuleFailed(i, result.error));
          break;
        }
        VerifyRulesAccept(before, compile, i);
        i := i + 1;
      }
      RuleValuesPointwise(rules, current);
    }
  }
}
