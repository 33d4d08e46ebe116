/** Alert rules and their validation (rules.go). */
module Rules {
  import opened Types

  datatype Rule = Rule(key: string, enabled: bool, threshold: Float, minutes: int)

  const CPU := "cpu_high"
  const MEM := "mem_high"

  const MAX_RUN := 120  // the longest rule window

  predicate KnownKey(key: string) {
    key == CPU || key == MEM
  }

  /** cpu_high 90 % for 10 min and mem_high 90 % for 5 min, both enabled. */
  function DefaultRules(): seq<Rule> {
    [Rule(CPU, true, Fin(90.0), 10), Rule(MEM, true, Fin(90.0), 5)]
  }

  datatype RuleField = UnknownKey | DuplicateKey | BadThreshold | BadMinutes

  datatype Verdict = Accepted | RuleError(index: nat, field: RuleField)

  predicate ThresholdInRange(t: Float) {
    t.Fin? && 1.0 <= t.r <= 100.0
  }

  predicate HasKey(rules: seq<Rule>, key: string) {
    exists i :: 0 <= i < |rules| && rules[i].key == key
  }

  /** The first fault found in rule i, if any, in the order the checks are made. */
  function FaultOf(rules: seq<Rule>, i: nat): Option<RuleField>
    requires i < |rules|
  {
    var r := rules[i];
    if !KnownKey(r.key) then Some(UnknownKey)
    else if HasKey(rules[..i], r.key) then Some(DuplicateKey)
    else if !ThresholdInRange(r.threshold) then Some(BadThreshold)
    else if r.minutes < 1 || r.minutes > MAX_RUN then Some(BadMinutes)
    else None
  }

  function ValidateFrom(rules: seq<Rule>, i: nat): Verdict
    requires i <= |rules|
    decreases |rules| - i
  {
    if i == |rules| then Accepted
    else if FaultOf(rules, i).Some? then RuleError(i, FaultOf(rules, i).value)
    else ValidateFrom(rules, i + 1)
  }

  function Validate(rules: seq<Rule>): Verdict {
    ValidateFrom(rules, 0)
  }

  predicate ValidRule(r: Rule) {
    KnownKey(r.key) && ThresholdInRange(r.threshold) && 1 <= r.minutes <= MAX_RUN
  }

  /** The rule lists the evaluator can rely on: known keys, no duplicate, every bound kept. */
  ghost predicate ValidRules(rules: seq<Rule>) {
    && (forall i :: 0 <= i < |rules| ==> ValidRule(rules[i]))
    && (forall i, j :: 0 <= i < j < |rules| ==> rules[i].key != rules[j].key)
  }

  lemma {:induction false} ValidateFromStops(rules: seq<Rule>, i: nat)
    requires i <= |rules|
    ensures ValidateFrom(rules, i).Accepted? <==> forall k :: i <= k < |rules| ==> FaultOf(rules, k).None?
    ensures ValidateFrom(rules, i).RuleError? ==>
              var e := ValidateFrom(rules, i);
              && i <= e.index < |rules|
              && FaultOf(rules, e.index) == Some(e.field)
              && forall k :: i <= k < e.index ==> FaultOf(rules, k).None?
    decreases |rules| - i
  {
    if i < |rules| && FaultOf(rules, i).None? {
      ValidateFromStops(rules, i + 1);
    }
  }

  /**
   * Validation accepts exactly the lists within every bound, and otherwise
   * names the first rule at fault: all the rules before it are faultless.
   */
  lemma ValidateExact(rules: seq<Rule>)
    ensures Validate(rules).Accepted? <==> ValidRules(rules)
    ensures Validate(rules).RuleError? ==>
              var e := Validate(rules);
              && e.index < |rules|
              && ValidRules(rules[..e.index])
              && !ValidRules(rules[..e.index + 1])
              && FaultOf(rules, e.index) == Some(e.field)
  {
    ValidateFromStops(rules, 0);
    FaultlessPrefix(rules, |rules|);
    assert rules[..|rules|] == rules;
    if Validate(rules).RuleError? {
      var e := Validate(rules);
      FaultlessPrefix(rules, e.index);
      FaultlessPrefix(rules, e.index + 1);
      assert FaultOf(rules, e.index).Some?;
    }
  }

  lemma FaultlessPrefix(rules: seq<Rule>, n: nat)
    requires n <= |rules|
    ensures ValidRules(rules[..n]) <==> forall k :: 0 <= k < n ==> FaultOf(rules, k).None?
  {
    if forall k :: 0 <= k < n ==> FaultOf(rules, k).None? {
      forall i | 0 <= i < n ensures ValidRule(rules[..n][i]) {
        assert FaultOf(rules, i).None?;
      }
      forall i, j | 0 <= i < j < n ensures rules[..n][i].key != rules[..n][j].key {
        assert FaultOf(rules, j).None?;
        assert rules[..j][i] == rules[i];
      }
    }
    if ValidRules(rules[..n]) {
      forall k | 0 <= k < n ensures FaultOf(rules, k).None? {
        assert ValidRule(rules[..n][k]);
        forall i | 0 <= i < k ensures rules[..k][i].key != rules[k].key {
          assert rules[..n][i].key != rules[..n][k].key;
        }
      }
    }
  }

  /** What the fault named says of the rule: the first of the four checks, in this order, that it does not pass. */
  lemma FaultMeans(rules: seq<Rule>, i: nat)
    requires i < |rules|
    ensures var r := rules[i];
      var known := r.key == "cpu_high" || r.key == "mem_high";
      var again := exists j :: 0 <= j < i && rules[j].key == r.key;
      var bounded := r.threshold.Fin? && 1.0 <= r.threshold.r <= 100.0;
      && (FaultOf(rules, i) == Some(UnknownKey) <==> !known)
      && (FaultOf(rules, i) == Some(DuplicateKey) <==> known && again)
      && (FaultOf(rules, i) == Some(BadThreshold) <==> known && !again && !bounded)
      && (FaultOf(rules, i) == Some(BadMinutes) <==> known && !again && bounded && !(1 <= r.minutes <= 120))
  {
    if j :| 0 <= j < i && rules[j].key == rules[i].key {
      assert rules[..i][j].key == rules[i].key;
    }
  }

  /** The defaults pass: both alerts on, from 90 percent on, after 10 and 5 minutes. */
  lemma DefaultRulesValid()
    ensures ValidRules(DefaultRules())
    ensures DefaultRules() == [Rule("cpu_high", true, Fin(90.0), 10), Rule("mem_high", true, Fin(90.0), 5)]
  {
    assert CPU[0] == 'c' && MEM[0] == 'm';
  }
}
