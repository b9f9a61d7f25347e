/**
 * The rule model of the switcher's configuration (`ruleStructure` and the
 * anonymous target struct in Swichers/Switcher-Mac/config.go) and the rule
 * check `(*ruleStructure).verify`.
 *
 * The check is given twice: `VerifyRule` states it on values, and the method
 * `Rule.Verify` performs it in place on the objects, as the Go code does
 * through its pointers, and is proved to leave exactly the state
 * `VerifyRule` describes. The lemmas state what the check promises.
 */
module Rules {
  import opened Wrappers

  /** Go's `uint64`, the type of `first_packet_timeout`. */
  newtype uint64 = x: int | 0 <= x < 0x1_0000_0000_0000_0000

  /** The timeout, in milliseconds, given to a regexp rule that left it at 0. */
  const DefaultFirstPacketTimeout: uint64 := 5000

  /** A compiled `*regexp.Regexp`; the regex engine is not part of this model. */
  type Matcher(==)

  /** `regexp.Compile`: `Some(m)` on success, `None` when the pattern is rejected. */
  type Compiler = string -> Option<Matcher>

  /** The failures `verify` reports; target failures carry the target's index. */
  datatype RuleError =
    | EmptyName
    | InvalidListen
    | InvalidTargets
    | InvalidAddress(pos: nat)
    | InvalidRegexp(pos: nat)
  {
    predicate IsTargetError() { InvalidAddress? || InvalidRegexp? }
  }

  /** The state of one target: its pattern, its hidden compiled matcher, its address. */
  datatype TargetValue = TargetValue(pattern: string, matcher: Option<Matcher>, address: string)

  /** The state of one rule, with its targets in order. */
  datatype RuleValue = RuleValue(
    name: string,
    listen: string,
    enableRegexp: bool,
    targets: seq<TargetValue>,
    firstPacketTimeout: uint64,
    blacklist: map<string, bool>)

  // ---------------------------------------------------------------------------
  // The check on values
  // ---------------------------------------------------------------------------

  /** The rule after the timeout default that `verify` applies before its target loop. */
  function WithDefaultTimeout(r: RuleValue): RuleValue
  {
    if r.enableRegexp && r.firstPacketTimeout == 0
    then r.(firstPacketTimeout := DefaultFirstPacketTimeout)
    else r
  }

  /**
   * The target loop of `verify`, from index `i` on: each target's address is
   * checked and, in regexp mode, its pattern compiled and the matcher stored.
   * Returns the targets as left behind and the loop's outcome.
   */
  function CheckTargets(ts: seq<TargetValue>, regexpMode: bool, compile: Compiler, i: nat)
    : (seq<TargetValue>, Outcome<RuleError>)
    requires i <= |ts|
    decreases |ts| - i
  {
    if i == |ts| then (ts, Pass)
    else if ts[i].address == "" then (ts, Fail(InvalidAddress(i)))
    else if !regexpMode then CheckTargets(ts, regexpMode, compile, i + 1)
    else match compile(ts[i].pattern)
      case None => (ts, Fail(InvalidRegexp(i)))
      case Some(m) => CheckTargets(ts[i := ts[i].(matcher := Some(m))], regexpMode, compile, i + 1)
  }

  /** `verify` on a rule value: the rule as left behind, and what `verify` returns. */
  function VerifyRule(r: RuleValue, compile: Compiler): (RuleValue, Outcome<RuleError>)
  {
    if r.name == "" then (r, Fail(EmptyName))
    else if r.listen == "" then (r, Fail(InvalidListen))
    else if |r.targets| == 0 then (r, Fail(InvalidTargets))
    else
      var d := WithDefaultTimeout(r);
      var (ts, outcome) := CheckTargets(d.targets, d.enableRegexp, compile, 0);
      (d.(targets := ts), outcome)
  }

  // ---------------------------------------------------------------------------
  // A target-by-target reading of the loop, independent of its recursion
  // ---------------------------------------------------------------------------

  /** Target `t` passes the loop body: a non-empty address and, in regexp mode, a compilable pattern. */
  predicate TargetAccepted(t: TargetValue, regexpMode: bool, compile: Compiler)
  {
    t.address != "" && (regexpMode ==> compile(t.pattern).Some?)
  }

  /** The error the loop body reports for a target it does not accept at index `i`. */
  function TargetFailure(t: TargetValue, i: nat): RuleError
  {
    if t.address == "" then InvalidAddress(i) else InvalidRegexp(i)
  }

  /** Target `t` after an accepting loop body: in regexp mode it holds the compile result. */
  function Processed(t: TargetValue, regexpMode: bool, compile: Compiler): TargetValue
  {
    if regexpMode then t.(matcher := compile(t.pattern)) else t
  }

  /** Everything about a target except its matcher is the same in `t` and `u`. */
  predicate SameSerialized(t: TargetValue, u: TargetValue)
  {
    t.pattern == u.pattern && t.address == u.address
  }

  /** One accepting pass of the loop body: target `i` is processed and the loop moves on. */
  lemma CheckTargetsAccept(ts: seq<TargetValue>, regexpMode: bool, compile: Compiler, i: nat)
    requires i < |ts| && TargetAccepted(ts[i], regexpMode, compile)
    ensures CheckTargets(ts, regexpMode, compile, i)
         == CheckTargets(ts[i := Processed(ts[i], regexpMode, compile)], regexpMode, compile, i + 1)
  {
    if !regexpMode {
      assert ts[i := Processed(ts[i], regexpMode, compile)] == ts;
    }
  }

  /**
   * The loop from index `i` leaves targets before `i` alone, processes an
   * accepted prefix, stops at the first target it does not accept with that
   * target's error and leaves that target and all later ones alone.
   */
  lemma {:induction false} CheckTargetsFirstFailure(ts: seq<TargetValue>, regexpMode: bool, compile: Compiler, i: nat)
    requires i <= |ts|
    ensures var (us, outcome) := CheckTargets(ts, regexpMode, compile, i);
      && |us| == |ts|
      && (forall j :: 0 <= j < i ==> us[j] == ts[j])
      && (outcome == Pass <==> forall j :: i <= j < |ts| ==> TargetAccepted(ts[j], regexpMode, compile))
      && (outcome == Pass ==> forall j :: i <= j < |ts| ==> us[j] == Processed(ts[j], regexpMode, compile))
      && (outcome.Fail? ==> outcome.error.IsTargetError())
      && (outcome.Fail? && outcome.error.IsTargetError() ==>
            var k := outcome.error.pos;
            && i <= k < |ts|
            && outcome.error == TargetFailure(ts[k], k)
            && !TargetAccepted(ts[k], regexpMode, compile)
            && (forall j :: i <= j < k ==> TargetAccepted(ts[j], regexpMode, compile))
            && (forall j :: i <= j < k ==> us[j] == Processed(ts[j], regexpMode, compile))
            && (forall j :: k <= j < |ts| ==> us[j] == ts[j]))
    decreases |ts| - i
  {
    if i == |ts| || ts[i].address == "" {
    } else if !regexpMode {
      CheckTargetsFirstFailure(ts, regexpMode, compile, i + 1);
    } else if compile(ts[i].pattern).None? {
    } else {
      var ts' := ts[i := ts[i].(matcher := compile(ts[i].pattern))];
      CheckTargetsFirstFailure(ts', regexpMode, compile, i + 1);
      assert forall j :: i < j < |ts| ==> ts'[j] == ts[j];
    }
  }

  // ---------------------------------------------------------------------------
  // What `verify` promises
  // ---------------------------------------------------------------------------

  /**
   * The three header checks come first, in the order name, listen, targets;
   * each of their errors is reported exactly when its check is the first to
   * fail, and a rule rejected by one of them is left unchanged.
   */
  lemma VerifyHeaderOrder(r: RuleValue, compile: Compiler)
    ensures var (r', outcome) := VerifyRule(r, compile);
      && (outcome == Fail(EmptyName) <==> r.name == "")
      && (outcome == Fail(InvalidListen) <==> r.name != "" && r.listen == "")
      && (outcome == Fail(InvalidTargets) <==> r.name != "" && r.listen != "" && r.targets == [])
      && (outcome.Fail? && !outcome.error.IsTargetError() ==> r' == r)
  {
    if r.name != "" && r.listen != "" && r.targets != [] {
      var d := WithDefaultTimeout(r);
      CheckTargetsFirstFailure(d.targets, d.enableRegexp, compile, 0);
    }
  }

  /**
   * The timeout becomes 5000 exactly when the header checks pass, regexp mode
   * is on and the timeout is 0; otherwise it is left as it was. This holds
   * whatever the target loop then reports, so a rule that fails on a target
   * keeps the default.
   */
  lemma VerifyTimeoutDefault(r: RuleValue, compile: Compiler)
    ensures var (r', outcome) := VerifyRule(r, compile);
      && r'.firstPacketTimeout ==
           (if r.name != "" && r.listen != "" && r.targets != [] && r.enableRegexp && r.firstPacketTimeout == 0
            then DefaultFirstPacketTimeout else r.firstPacketTimeout)
      && (outcome.Fail? && outcome.error.IsTargetError() && r.enableRegexp && r.firstPacketTimeout == 0 ==>
            r'.firstPacketTimeout == DefaultFirstPacketTimeout)
  {
  }

  /**
   * Nothing else changes: name, listen, the mode flag, the blacklist, the
   * number and order of targets and every target's pattern and address stay
   * as they were; only the timeout and the targets' matchers may differ.
   */
  lemma VerifyFrame(r: RuleValue, compile: Compiler)
    ensures var (r', _) := VerifyRule(r, compile);
      && r'.name == r.name && r'.listen == r.listen && r'.enableRegexp == r.enableRegexp
      && r'.blacklist == r.blacklist
      && |r'.targets| == |r.targets|
      && (forall j :: 0 <= j < |r.targets| ==> SameSerialized(r'.targets[j], r.targets[j]))
  {
    if r.name != "" && r.listen != "" && r.targets != [] {
      var d := WithDefaultTimeout(r);
      CheckTargetsFirstFailure(d.targets, d.enableRegexp, compile, 0);
    }
  }

  /**
   * A target error names a valid index `i`: every target before `i` has a
   * non-empty address and, in regexp mode, a compilable pattern and now holds
   * its matcher; target `i` fails for the reason named; target `i` and every
   * later target are left unchanged.
   */
  lemma VerifyTargetFailure(r: RuleValue, compile: Compiler)
    ensures var (r', outcome) := VerifyRule(r, compile);
      outcome.Fail? && outcome.error.IsTargetError() ==>
        var i := outcome.error.pos;
        && r.name != "" && r.listen != "" && i < |r.targets| && |r'.targets| == |r.targets|
        && (outcome.error.InvalidAddress? <==> r.targets[i].address == "")
        && (outcome.error.InvalidRegexp? <==>
              r.targets[i].address != "" && r.enableRegexp && compile(r.targets[i].pattern).None?)
        && (forall j :: 0 <= j < i ==> r.targets[j].address != "")
        && (forall j :: 0 <= j < i && r.enableRegexp ==>
              compile(r.targets[j].pattern).Some? && r'.targets[j].matcher == compile(r.targets[j].pattern))
        && (forall j :: i <= j < |r.targets| ==> r'.targets[j] == r.targets[j])
  {
    if r.name != "" && r.listen != "" && r.targets != [] {
      var d := WithDefaultTimeout(r);
      CheckTargetsFirstFailure(d.targets, d.enableRegexp, compile, 0);
    }
  }

  /**
   * `verify` succeeds exactly when the header checks pass and every target is
   * accepted; then every target has a non-empty address and, in regexp mode,
   * holds the compile result of its own pattern.
   */
  lemma VerifySuccess(r: RuleValue, compile: Compiler)
    ensures var (r', outcome) := VerifyRule(r, compile);
      && (outcome == Pass <==>
            && r.name != "" && r.listen != "" && r.targets != []
            && forall j :: 0 <= j < |r.targets| ==> TargetAccepted(r.targets[j], r.enableRegexp, compile))
      && (outcome == Pass ==> |r'.targets| == |r.targets|)
      && (outcome == Pass ==>
            forall j :: 0 <= j < |r.targets| ==>
              && r'.targets[j].address != ""
              && (r.enableRegexp ==> r'.targets[j].matcher == compile(r.targets[j].pattern))
              && (!r.enableRegexp ==> r'.targets[j] == r.targets[j]))
  {
    if r.name != "" && r.listen != "" && r.targets != [] {
      var d := WithDefaultTimeout(r);
      CheckTargetsFirstFailure(d.targets, d.enableRegexp, compile, 0);
    }
  }

  /**
   * With regexp mode off no pattern is compiled: the targets are left exactly
   * as they were, no failure is a regexp failure, and the result does not
   * depend on the compiler at all.
   */
  lemma VerifyPlainModeIgnoresPatterns(r: RuleValue, compile: Compiler, other: Compiler)
    requires !r.enableRegexp
    ensures var (r', outcome) := VerifyRule(r, compile);
      && r'.targets == r.targets
      && !(outcome.Fail? && outcome.error.InvalidRegexp?)
      && VerifyRule(r, other) == VerifyRule(r, compile)
  {
    if r.name != "" && r.listen != "" && r.targets != [] {
      CheckTargetsFirstFailure(r.targets, false, compile, 0);
      CheckTargetsIgnoreCompiler(r.targets, compile, other, 0);
    }
  }

  /** With regexp mode off the target loop never calls the compiler. */
  lemma {:induction false} CheckTargetsIgnoreCompiler(ts: seq<TargetValue>, compile: Compiler, other: Compiler, i: nat)
    requires i <= |ts|
    ensures CheckTargets(ts, false, compile, i) == CheckTargets(ts, false, other, i)
    decreases |ts| - i
  {
    if i < |ts| && ts[i].address != "" {
      CheckTargetsIgnoreCompiler(ts, compile, other, i + 1);
    }
  }

  /**
   * A rule that passed `verify` passes it again and is not changed by the
   * second run: the timeout is no longer 0 and every matcher is already the
   * compile result of its pattern.
   */
  lemma VerifyIdempotent(r: RuleValue, compile: Compiler)
    requires VerifyRule(r, compile).1 == Pass
    ensures VerifyRule(VerifyRule(r, compile).0, compile) == (VerifyRule(r, compile).0, Pass)
  {
    var r' := VerifyRule(r, compile).0;
    VerifySuccess(r, compile);
    VerifyFrame(r, compile);
    VerifyTimeoutDefault(r, compile);
    assert WithDefaultTimeout(r') == r';
    VerifySuccess(r', compile);
    CheckTargetsFirstFailure(r'.targets, r'.enableRegexp, compile, 0);
    var us := CheckTargets(r'.targets, r'.enableRegexp, compile, 0).0;
    assert forall j :: 0 <= j < |us| ==> us[j] == r'.targets[j];
    assert us == r'.targets;
  }

  // ---------------------------------------------------------------------------
  // The objects, updated in place as the Go code does through its pointers
  // ---------------------------------------------------------------------------

  /** One element of `Targets`; `matcher` is the hidden `regexp` field. */
  class Target {
    var pattern: string
    var matcher: Option<Matcher>
    var address: string

    /** A target as the JSON decoder allocates it: the hidden matcher is not set. */
    constructor (pattern: string, address: string)
      ensures Value() == TargetValue(pattern, None, address)
    {
      this.pattern := pattern;
      this.matcher := None;
      this.address := address;
    }

    ghost function Value(): TargetValue
      reads this
    {
      TargetValue(pattern, matcher, address)
    }
  }

  /** The values of a sequence of targets, in order. */
  ghost function TargetValues(ts: seq<Target>): (vs: seq<TargetValue>)
    reads ts
    ensures |vs| == |ts| && forall k :: 0 <= k < |ts| ==> vs[k] == ts[k].Value()
  {
    if ts == [] then [] else [ts[0].Value()] + TargetValues(ts[1..])
  }

  /** Targets whose values are, one by one, those of `vs` have the values `vs`. */
  lemma TargetValuesPointwise(ts: seq<Target>, vs: seq<TargetValue>)
    requires |ts| == |vs| && forall k :: 0 <= k < |ts| ==> ts[k].Value() == vs[k]
    ensures TargetValues(ts) == vs
  {
  }

  /** One `ruleStructure`, reached through a pointer. */
  class Rule {
    var name: string
    var listen: string
    var enableRegexp: bool
    var targets: seq<Target>
    var firstPacketTimeout: uint64
    var blacklist: map<string, bool>

    /** A rule as the JSON decoder allocates it, holding the given distinct targets. */
    constructor (name: string, listen: string, enableRegexp: bool, targets: seq<Target>,
                 firstPacketTimeout: uint64, blacklist: map<string, bool>)
      requires forall i, j :: 0 <= i < j < |targets| ==> targets[i] != targets[j]
      ensures Valid() && this.targets == targets
      ensures Value() == RuleValue(name, listen, enableRegexp, TargetValues(targets), firstPacketTimeout, blacklist)
    {
      this.name := name;
      this.listen := listen;
      this.enableRegexp := enableRegexp;
      this.targets := targets;
      this.firstPacketTimeout := firstPacketTimeout;
      this.blacklist := blacklist;
    }

    /** Each target belongs to this rule once: no element of `targets` is repeated. */
    ghost predicate Valid()
      reads this
    {
      forall i, j :: 0 <= i < j < |targets| ==> targets[i] != targets[j]
    }

    ghost function Value(): RuleValue
      reads this, targets
    {
      RuleValue(name, listen, enableRegexp, TargetValues(targets), firstPacketTimeout, blacklist)
    }

    /** The set of this rule's target objects. */
    ghost function TargetSet(): set<Target>
      reads this
    {
      set t | t in targets
    }

    /**
     * `verify`: the header checks in order, the timeout default, then the
     * target loop. The new state and the result are those of `VerifyRule`.
     */
    method Verify(compile: Compiler) returns (outcome: Outcome<RuleError>)
      requires Valid()
      modifies this, targets
      ensures Valid() && targets == old(targets)
      ensures (Value(), outcome) == VerifyRule(old(Value()), compile)
    {
      if name == "" { return Fail(EmptyName); }
      if listen == "" { return Fail(InvalidListen); }
      if |targets| == 0 { return Fail(InvalidTargets); }
      if enableRegexp {
        if firstPacketTimeout == 0 {
          firstPacketTimeout := DefaultFirstPacketTimeout;
        }
      }
      assert Value() == WithDefaultTimeout(old(Value()));
      outcome := VerifyTargets(compile);
    }

    /**
     * The target loop of `verify`: in index order, check each address and, in
     * regexp mode, compile the pattern and store the matcher in the target,
     * stopping at the first target rejected. Only the targets' matchers change,
     * as `CheckTargets` describes.
     */
    method VerifyTargets(compile: Compiler) returns (outcome: Outcome<RuleError>)
      requires Valid()
      modifies targets
      ensures (TargetValues(targets), outcome) == CheckTargets(old(TargetValues(targets)), enableRegexp, compile, 0)
    {
      ghost var start := TargetValues(targets);
      ghost var current := start;
      var i := 0;
      while i < |targets|
        invariant 0 <= i <= |targets| && |current| == |targets|
        invariant forall k :: 0 <= k < |targets| ==> targets[k].Value() == current[k]
        invariant CheckTargets(start, enableRegexp, compile, 0) == CheckTargets(current, enableRegexp, compile, i)
      {
        var v := targets[i];
        if v.address == "" {
          TargetValuesPointwise(targets, current);
          return Fail(InvalidAddress(i));
        }
        if enableRegexp {
          var compiled := compile(v.pattern);
          if compiled.None? {
            TargetValuesPointwise(targets, current);
            return Fail(InvalidRegexp(i));
          }
          v.matcher := compiled;
        }
        CheckTargetsAccept(current, enableRegexp, compile, i);
        current := current[i := Processed(current[i], enableRegexp, compile)];
        i := i + 1;
      }
      TargetValuesPointwise(targets, current);
      return Pass;
    }
  }
}
