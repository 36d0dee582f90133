/** Which rules of a list run, and what running them leaves behind: names are locked by the rules that ran. */
module RuleEngine {
  import opened Names
  import opened HeaderEdit
  import opened Rules

  /** What rules are run on: `eval` evaluates a condition or value template and may fail, `handle` applies a rule with
      its value and says whether that succeeded. Both may depend on the state. */
  datatype Env<!S> = Env(eval: (string, S) -> Option<string>, handle: (Rule, string, S) -> (S, bool))

  /** Locked: skipped because of an earlier rule. Declined: its condition is not met. */
  datatype Outcome = Locked | Declined | Done | Failed

  datatype Verdict = Met | NotMet | Broken

  function Check<S>(env: Env<S>, rule: Rule, s: S): Verdict {
    match rule.filter
    case None => Met
    case Some(c) =>
      match env.eval(c.expr, s)
      case None => Broken
      case Some(v) => if (v == "" || v == "0") == c.negative then Met else NotMet
  }

  /** The value of a rule; an empty template is not evaluated. */
  function Value<S>(env: Env<S>, rule: Rule, s: S): Option<string> {
    if rule.template == "" then Some("") else env.eval(rule.template, s)
  }

  /** One rule that is not locked. */
  function Exec<S>(env: Env<S>, rule: Rule, s: S): (r: (S, Outcome))
    ensures r.1 != Locked && (rule.filter == None ==> r.1 != Declined)
  {
    match Check(env, rule, s)
    case Broken => (s, Failed)
    case NotMet => (s, Declined)
    case Met =>
      if rule.opcode == Pass then (s, Done)
      else
        match Value(env, rule, s)
        case None => (s, Failed)
        case Some(v) =>
          var (s', ok) := env.handle(rule, v, s);
          (s', if ok then Done else Failed)
  }

  /** The end of a run: it is not ok if a rule failed, and then the run stopped there. */
  datatype Result<S> = Result(state: S, ok: bool, locked: set<string>, trace: seq<Outcome>)

  predicate IsLocked(rule: Rule, locked: set<string>) {
    !rule.wildcard && Lower(rule.key) in locked
  }

  /** A rule that has run locks its name, unless it is a wildcard or has the -n flag. */
  function LockedAfter(rule: Rule, locked: set<string>): set<string> {
    if !rule.wildcard && !rule.next then locked + {Lower(rule.key)} else locked
  }

  function Run<S>(env: Env<S>, rules: seq<Rule>, locked: set<string>, s: S): (r: Result<S>)
    ensures |r.trace| <= |rules| && (r.ok ==> |r.trace| == |rules|)
  {
    if rules == [] then Result(s, true, locked, [])
    else if IsLocked(rules[0], locked) then
      var rest := Run(env, rules[1..], locked, s);
      rest.(trace := [Locked] + rest.trace)
    else
      var (s', o) := Exec(env, rules[0], s);
      if o == Failed then Result(s', false, locked, [Failed])
      else
        var rest := Run(env, rules[1..], if o == Done then LockedAfter(rules[0], locked) else locked, s');
        rest.(trace := [o] + rest.trace)
  }

  /** Same state, same outcome, same locked names; how many rules were looked at does not matter. */
  predicate SameEnd<S(==)>(a: Result<S>, b: Result<S>) {
    a.state == b.state && a.ok == b.ok && (a.ok ==> a.locked == b.locked)
  }

  predicate SameFinish<S(==)>(a: Result<S>, b: Result<S>) {
    a.state == b.state && a.ok == b.ok
  }

  /** One step of a run. */
  lemma {:induction false} RunStep<S>(env: Env<S>, rules: seq<Rule>, locked: set<string>, s: S)
    ensures rules == [] ==> Run(env, rules, locked, s).state == s && Run(env, rules, locked, s).ok
    ensures rules != [] && IsLocked(rules[0], locked) ==>
              SameFinish(Run(env, rules, locked, s), Run(env, rules[1..], locked, s))
    ensures rules != [] && !IsLocked(rules[0], locked) ==>
              var (s', o) := Exec(env, rules[0], s);
              if o == Failed then Run(env, rules, locked, s).state == s' && !Run(env, rules, locked, s).ok
              else SameFinish(Run(env, rules, locked, s),
                  Run(env, rules[1..], if o == Done then LockedAfter(rules[0], locked) else locked, s'))
  {
  }

  // ---------- what the first rule does to a run ----------

  lemma {:induction false} NoRules<S>(env: Env<S>, locked: set<string>, s: S)
    ensures Run(env, [], locked, s) == Result(s, true, locked, [])
  {
  }

  /** A rule whose name is locked is passed by. */
  lemma {:induction false} LockedIsSkipped<S>(env: Env<S>, rule: Rule, rest: seq<Rule>, locked: set<string>, s: S)
    requires !rule.wildcard && Lower(rule.key) in locked
    ensures var end := Run(env, rest, locked, s);
            Run(env, [rule] + rest, locked, s) == Result(end.state, end.ok, end.locked, [Locked] + end.trace)
  {
    RunCons(env, rule, rest, locked, s);
  }

  /** A condition evaluates to `w`: `if=` stops the rule on "" and "0", and `if!=` on everything else. Then the run goes
      on as if the rule were not there, and its name is not locked. */
  lemma {:induction false} UnmetIsSkipped<S>(env: Env<S>, rule: Rule, rest: seq<Rule>, locked: set<string>, s: S,
                                             w: string)
    requires rule.wildcard || Lower(rule.key) !in locked
    requires rule.filter.Some? && env.eval(rule.filter.value.expr, s) == Some(w)
    requires if rule.filter.value.negative then w != "" && w != "0" else w == "" || w == "0"
    ensures var end := Run(env, rest, locked, s);
            Run(env, [rule] + rest, locked, s) == Result(end.state, end.ok, end.locked, [Declined] + end.trace)
  {
    RunCons(env, rule, rest, locked, s);
  }

  /** A rule runs that has no condition or whose condition evaluates to `w`, which is neither "" nor "0" for `if=` and
      one of these for `if!=`. Its value is `v`. If the handler fails, the run ends there with what the handler left;
      otherwise it goes on from that. */
  lemma {:induction false} HandledRule<S>(env: Env<S>, rule: Rule, rest: seq<Rule>, locked: set<string>, s: S,
                                          w: string, v: string)
    requires rule.wildcard || Lower(rule.key) !in locked
    requires rule.filter.Some? ==>
               && env.eval(rule.filter.value.expr, s) == Some(w)
               && if rule.filter.value.negative then w == "" || w == "0" else w != "" && w != "0"
    requires rule.opcode != Pass && if rule.template == "" then v == "" else env.eval(rule.template, s) == Some(v)
    ensures var (s', ok) := env.handle(rule, v, s);
            var end := Run(env, rest, if rule.wildcard || rule.next then locked else locked + {Lower(rule.key)}, s');
            Run(env, [rule] + rest, locked, s) ==
              if ok then Result(end.state, end.ok, end.locked, [Done] + end.trace)
              else Result(s', false, locked, [Failed])
  {
    RunCons(env, rule, rest, locked, s);
  }

  /** A pass rule that runs only locks its name. */
  lemma {:induction false} PassedRule<S>(env: Env<S>, rule: Rule, rest: seq<Rule>, locked: set<string>, s: S, w: string)
    requires rule.wildcard || Lower(rule.key) !in locked
    requires rule.filter.Some? ==>
               && env.eval(rule.filter.value.expr, s) == Some(w)
               && if rule.filter.value.negative then w == "" || w == "0" else w != "" && w != "0"
    requires rule.opcode == Pass
    ensures var end := Run(env, rest, if rule.wildcard || rule.next then locked else locked + {Lower(rule.key)}, s);
            Run(env, [rule] + rest, locked, s) == Result(end.state, end.ok, end.locked, [Done] + end.trace)
  {
    RunCons(env, rule, rest, locked, s);
  }

  /** A condition that cannot be evaluated ends the run, and so does a value that cannot be evaluated if the rule gets
      that far. Nothing has changed then. */
  lemma {:induction false} BrokenStops<S>(env: Env<S>, rule: Rule, rest: seq<Rule>, locked: set<string>, s: S,
                                          w: string)
    requires rule.wildcard || Lower(rule.key) !in locked
    requires
      || (rule.filter.Some? && env.eval(rule.filter.value.expr, s) == None)
      || (&& (rule.filter.Some? ==>
                && env.eval(rule.filter.value.expr, s) == Some(w)
                && if rule.filter.value.negative then w == "" || w == "0" else w != "" && w != "0")
          && rule.opcode != Pass && rule.template != "" && env.eval(rule.template, s) == None)
    ensures Run(env, [rule] + rest, locked, s) == Result(s, false, locked, [Failed])
  {
    RunCons(env, rule, rest, locked, s);
  }

  // ---------- locking ----------

  lemma {:induction false} RunConcat<S>(env: Env<S>, a: seq<Rule>, b: seq<Rule>, locked: set<string>, s: S)
    ensures Run(env, a + b, locked, s) == Then(env, Run(env, a, locked, s), b)
  {
    hide Run, Exec, IsLocked, LockedAfter, Prepend, Then;
    if a == [] {
      assert a + b == b;
      ThenStarts(env, b, locked, s);
    } else {
      assert a == [a[0]] + a[1..] && a + b == [a[0]] + (a[1..] + b);
      RunCons(env, a[0], a[1..], locked, s);
      RunCons(env, a[0], a[1..] + b, locked, s);
      if IsLocked(a[0], locked) {
        RunConcat(env, a[1..], b, locked, s);
        PrependThen(env, Locked, Run(env, a[1..], locked, s), b);
      } else {
        var (s', o) := Exec(env, a[0], s);
        if o == Failed {
          ThenStops(env, Result(s', false, locked, [Failed]), b);
        } else {
          var next := if o == Done then LockedAfter(a[0], locked) else locked;
          RunConcat(env, a[1..], b, next, s');
          PrependThen(env, o, Run(env, a[1..], next, s'), b);
        }
      }
    }
  }

  /** The run of `rules` after a run that ended with `r`. */
  function Then<S>(env: Env<S>, r: Result<S>, rules: seq<Rule>): Result<S> {
    if r.ok then (var r' := Run(env, rules, r.locked, r.state); r'.(trace := r.trace + r'.trace)) else r
  }

  function Prepend<S>(o: Outcome, r: Result<S>): Result<S> {
    r.(trace := [o] + r.trace)
  }

  lemma {:induction false} PrependThen<S>(env: Env<S>, o: Outcome, r: Result<S>, rules: seq<Rule>)
    ensures Then(env, Prepend(o, r), rules) == Prepend(o, Then(env, r, rules))
  {
    hide Run;
  }

  lemma {:induction false} ThenStarts<S>(env: Env<S>, rules: seq<Rule>, locked: set<string>, s: S)
    ensures Then(env, Run(env, [], locked, s), rules) == Run(env, rules, locked, s)
  {
  }

  lemma {:induction false} ThenStops<S>(env: Env<S>, r: Result<S>, rules: seq<Rule>)
    requires !r.ok
    ensures Then(env, r, rules) == r
  {
  }

  lemma {:induction false} RunCons<S>(env: Env<S>, rule: Rule, rules: seq<Rule>, locked: set<string>, s: S)
    ensures Run(env, [rule] + rules, locked, s) ==
      if IsLocked(rule, locked) then Prepend(Locked, Run(env, rules, locked, s))
      else
        var (s', o) := Exec(env, rule, s);
        if o == Failed then Result(s', false, locked, [Failed])
        else Prepend(o, Run(env, rules, if o == Done then LockedAfter(rule, locked) else locked, s'))
  {
    hide Exec, IsLocked, LockedAfter;
    assert ([rule] + rules)[1..] == rules;
  }

  /** Rule `j` of a run that got that far was executed and locks its name. */
  predicate Locks(rules: seq<Rule>, trace: seq<Outcome>, j: nat) {
    j < |rules| && j < |trace| && trace[j] == Done && !rules[j].wildcard && !rules[j].next
  }

  /** What locking comes to: a rule is skipped exactly when it is exact and an earlier exact rule of the same name,
      without -n, was executed. */
  lemma {:induction false} LockedExactly<S>(env: Env<S>, rules: seq<Rule>, locked: set<string>, s: S, i: nat)
    requires i < |Run(env, rules, locked, s).trace|
    ensures var trace := Run(env, rules, locked, s).trace;
            trace[i] == Locked <==>
              && !rules[i].wildcard
              && (Lower(rules[i].key) in locked
                  || exists j :: 0 <= j < i && Locks(rules, trace, j) && SameName(rules[j].key, rules[i].key))
  {
    hide Run, Exec, Lower;
    var first, locked', s' := FirstStep(env, rules, locked, s);
    var trace := Run(env, rules, locked, s).trace;
    if i > 0 {
      var rest := Run(env, rules[1..], locked', s').trace;
      LockedExactly(env, rules[1..], locked', s', i - 1);
      forall j | 0 <= j < i - 1 ensures Locks(rules[1..], rest, j) <==> Locks(rules, trace, j + 1) {
      }
      if j :| 0 <= j < i && Locks(rules, trace, j) && SameName(rules[j].key, rules[i].key) {
        if j > 0 {
          assert Locks(rules[1..], rest, j - 1);
        } else {
          assert Lower(rules[0].key) in locked';
        }
      }
      if j :| 0 <= j < i - 1 && Locks(rules[1..], rest, j) && SameName(rules[1..][j].key, rules[1..][i - 1].key) {
        assert Locks(rules, trace, j + 1);
      }
      assert locked' != locked ==> Locks(rules, trace, 0) && locked' == locked + {Lower(rules[0].key)};
    }
  }

  lemma {:induction false} FirstStep<S>(env: Env<S>, rules: seq<Rule>, locked: set<string>, s: S)
    returns (first: Outcome, locked': set<string>, s': S)
    requires rules != []
    ensures var trace := Run(env, rules, locked, s).trace;
            && |trace| > 0 && trace[0] == first && (first == Locked <==> IsLocked(rules[0], locked))
            && (1 < |trace| ==> trace == [first] + Run(env, rules[1..], locked', s').trace)
    ensures locked' == if first == Done && !rules[0].wildcard
            && !rules[0].next then locked + {Lower(rules[0].key)} else locked
  {
    if IsLocked(rules[0], locked) {
      first, locked', s' := Locked, locked, s;
    } else {
      var r := Exec(env, rules[0], s);
      first, s' := r.1, r.0;
      locked' := if first == Done then LockedAfter(rules[0], locked) else locked;
    }
  }

  /** So at most one exact rule of a name that lacks -n is executed, and no exact rule of that name is looked at
      again. */
  lemma {:induction false} OneLockPerName<S>(env: Env<S>, rules: seq<Rule>, s: S, j: nat, i: nat)
    requires j < i < |Run(env, rules, {}, s).trace|
    requires Locks(rules, Run(env, rules, {}, s).trace, j) && !rules[i].wildcard && SameName(rules[j].key, rules[i].key)
    ensures Run(env, rules, {}, s).trace[i] == Locked
  {
    LockedExactly(env, rules, {}, s, i);
  }
}
