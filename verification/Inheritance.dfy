/** Inheritance of rules: a block runs its own rules first and then those of its parent, without the ones that cannot
    run any more. */
module Inheritance {
  import opened Names
  import opened Seqs
  import opened HeaderEdit
  import opened Rules
  import opened RuleEngine

  /** An unconditional exact rule without -n switches off the parent's exact rules of its name. */
  predicate Disables(r: Rule) {
    r.filter == None && !r.next && !r.wildcard
  }

  function DisabledNames(rules: seq<Rule>): set<string> {
    if rules == [] then {} else (if Disables(rules[0]) then {Lower(rules[0].key)} else {}) + DisabledNames(rules[1..])
  }

  /** The rules that a set of switched-off names leaves. */
  function Pruned(names: set<string>, rules: seq<Rule>): seq<Rule> {
    if rules == [] then []
    else (if IsLocked(rules[0], names) then [] else [rules[0]]) + Pruned(names, rules[1..])
  }

  function Inherit(child: seq<Rule>, parent: seq<Rule>): seq<Rule> {
    child + Pruned(DisabledNames(child), parent)
  }

  // ---------- which rules are inherited ----------

  function NotDisabled(names: set<string>, rules: seq<Rule>): (picks: seq<bool>)
    ensures |picks| == |rules| && forall k :: 0 <= k < |rules| ==> picks[k] == !IsLocked(rules[k], names)
  {
    seq(|rules|, (k: nat) requires k < |rules| => !IsLocked(rules[k], names))
  }

  lemma {:induction false} PrunedSnoc(names: set<string>, rules: seq<Rule>, r: Rule)
    ensures Pruned(names, rules + [r]) == Pruned(names, rules) + if IsLocked(r, names) then [] else [r]
  {
    PrunedConcat(names, rules, [r]);
    assert [r][1..] == [];
  }

  lemma {:induction false} PrunedKeeps(names: set<string>, rules: seq<Rule>) returns (kept: seq<nat>)
    ensures Lists(kept, NotDisabled(names, rules)) && |Pruned(names, rules)| == |kept|
    ensures forall j :: 0 <= j < |kept| ==> kept[j] < |rules| && Pruned(names, rules)[j] == rules[kept[j]]
  {
    if rules == [] {
      kept := [];
    } else {
      var n := |rules| - 1;
      var front := PrunedKeeps(names, rules[..n]);
      kept := if IsLocked(rules[n], names) then front else front + [n];
      PrunedOneMore(names, rules, front);
    }
  }

  lemma {:induction false} PrunedOneMore(names: set<string>, rules: seq<Rule>, front: seq<nat>)
    requires rules != []
    requires var rules' := rules[..|rules| - 1];
             && Lists(front, NotDisabled(names, rules')) && |Pruned(names, rules')| == |front|
             && forall j :: 0 <= j < |front| ==> front[j] < |rules'| && Pruned(names, rules')[j] == rules'[front[j]]
    ensures var kept := if IsLocked(rules[|rules| - 1], names) then front else front + [|rules| - 1];
            && Lists(kept, NotDisabled(names, rules)) && |Pruned(names, rules)| == |kept|
            && forall j :: 0 <= j < |kept| ==> kept[j] < |rules| && Pruned(names, rules)[j] == rules[kept[j]]
  {
    hide Lists, Pruned, IsLocked;
    var n := |rules| - 1;
    assert rules == rules[..n] + [rules[n]];
    PrunedSnoc(names, rules[..n], rules[n]);
    assert NotDisabled(names, rules) == NotDisabled(names, rules[..n]) + [!IsLocked(rules[n], names)];
    ListsSnoc(front, NotDisabled(names, rules[..n]), !IsLocked(rules[n], names));
  }

  lemma {:induction false} DisabledBy(rules: seq<Rule>, key: string)
    ensures Lower(key) in DisabledNames(rules) <==>
              exists i :: 0 <= i < |rules| && rules[i].filter == None && !rules[i].next && !rules[i].wildcard
                          && SameLetters(rules[i].key, key)
  {
    hide Lower, SameLetters;
    if rules != [] {
      DisabledBy(rules[1..], key);
      NamesByCode(rules[0].key);
      assert forall i :: 0 <= i < |rules[1..]| ==> rules[1..][i] == rules[i + 1];
      assert forall i :: 0 < i < |rules| ==> rules[i] == rules[1..][i - 1];
    }
  }

  /** A block has its own rules and then, in order, those of its parent that are wildcards or that have the name of no
      unconditional exact rule without -n of the block. `kept` are their positions. */
  lemma {:induction false} InheritsExactly(child: seq<Rule>, parent: seq<Rule>) returns (kept: seq<nat>)
    ensures forall i, j :: 0 <= i < j < |kept| ==> kept[i] < kept[j]
    ensures forall k: nat :: k in kept <==>
              && k < |parent|
              && (|| parent[k].wildcard
                  || forall i :: 0 <= i < |child| && child[i].filter == None && !child[i].next && !child[i].wildcard ==>
                       !SameLetters(child[i].key, parent[k].key))
    ensures var rules := Inherit(child, parent);
            && |rules| == |child| + |kept| && rules[..|child|] == child
            && forall j :: 0 <= j < |kept| ==> kept[j] < |parent| && rules[|child| + j] == parent[kept[j]]
  {
    hide Pruned, DisabledNames, SameLetters, Lower;
    var names := DisabledNames(child);
    kept := PrunedKeeps(names, parent);
    forall k: nat | k < |parent|
      ensures NotDisabled(names, parent)[k] <==>
                || parent[k].wildcard
                || forall i :: 0 <= i < |child| && child[i].filter == None && !child[i].next && !child[i].wildcard ==>
                     !SameLetters(child[i].key, parent[k].key)
    {
      DisabledBy(child, parent[k].key);
    }
  }

  // ---------- inheriting keeps the meaning ----------

  /** When a list of rules has run without failing, every name that it switches off is locked. */
  lemma {:induction false} DisabledAreLocked<S>(env: Env<S>, rules: seq<Rule>, locked: set<string>, s: S)
    requires Run(env, rules, locked, s).ok
    ensures locked + DisabledNames(rules) <= Run(env, rules, locked, s).locked
  {
    if rules != [] {
      if IsLocked(rules[0], locked) {
        DisabledAreLocked(env, rules[1..], locked, s);
      } else {
        var (s', o) := Exec(env, rules[0], s);
        DisabledAreLocked(env, rules[1..], if o == Done then LockedAfter(rules[0], locked) else locked, s');
      }
    }
  }

  /** Rules of locked names may be left out. */
  lemma {:induction false} PrunedRun<S>(env: Env<S>, names: set<string>, rules: seq<Rule>, locked: set<string>, s: S)
    requires names <= locked
    ensures SameEnd(Run(env, Pruned(names, rules), locked, s), Run(env, rules, locked, s))
  {
    hide Exec;
    if rules != [] {
      if IsLocked(rules[0], names) {
        PrunedRun(env, names, rules[1..], locked, s);
        assert Pruned(names, rules) == Pruned(names, rules[1..]);
      } else {
        assert Pruned(names, rules)[1..] == Pruned(names, rules[1..]);
        if IsLocked(rules[0], locked) {
          PrunedRun(env, names, rules[1..], locked, s);
        } else {
          var (s', o) := Exec(env, rules[0], s);
          PrunedRun(env, names, rules[1..], if o == Done then LockedAfter(rules[0], locked) else locked, s');
        }
      }
    }
  }

  /** The inherited list means the same as the child's rules followed by all of the parent's, for every environment. */
  lemma {:induction false} InheritKeepsMeaning<S>(env: Env<S>, child: seq<Rule>, parent: seq<Rule>, s: S)
    ensures SameEnd(Run(env, Inherit(child, parent), {}, s), Run(env, child + parent, {}, s))
  {
    hide Run, Pruned, DisabledNames;
    RunConcat(env, child, parent, {}, s);
    RunConcat(env, child, Pruned(DisabledNames(child), parent), {}, s);
    var r := Run(env, child, {}, s);
    if r.ok {
      DisabledAreLocked(env, child, {}, s);
      PrunedRun(env, DisabledNames(child), parent, r.locked, r.state);
    }
  }

  // ---------- any number of levels ----------

  /** The list of the innermost of several levels, each inheriting from the next. */
  function Merged(levels: seq<seq<Rule>>): seq<Rule> {
    if levels == [] then [] else Inherit(levels[0], Merged(levels[1..]))
  }

  /** All rules of all levels, from the innermost outwards. */
  function All(levels: seq<seq<Rule>>): seq<Rule> {
    if levels == [] then [] else levels[0] + All(levels[1..])
  }

  lemma {:induction false} LevelByLevel(child: seq<Rule>, rest: seq<seq<Rule>>)
    ensures Merged([]) == [] && Merged([child] + rest) == Inherit(child, Merged(rest))
    ensures All([]) == [] && All([child] + rest) == child + All(rest)
  {
    assert ([child] + rest)[1..] == rest;
  }

  /** However many levels there are and whatever is locked, the inherited list means the same as all rules in order. */
  lemma {:induction false} MergedKeepsMeaning<S>(env: Env<S>, levels: seq<seq<Rule>>, locked: set<string>, s: S)
    ensures SameEnd(Run(env, Merged(levels), locked, s), Run(env, All(levels), locked, s))
  {
    hide Run, Pruned, DisabledNames;
    if levels != [] {
      var child, rest := levels[0], levels[1..];
      RunConcat(env, child, All(rest), locked, s);
      RunConcat(env, child, Pruned(DisabledNames(child), Merged(rest)), locked, s);
      var r := Run(env, child, locked, s);
      if r.ok {
        DisabledAreLocked(env, child, locked, s);
        PrunedRun(env, DisabledNames(child), Merged(rest), r.locked, r.state);
        MergedKeepsMeaning(env, rest, r.locked, r.state);
      }
    }
  }

  // ---------- pass rules ----------

  /** Locks on names that no exact rule of the list has do not matter. */
  lemma {:induction false} LocksOfOthers<S>(env: Env<S>, names: set<string>, rules: seq<Rule>, locked: set<string>,
                                            s: S)
    requires forall r :: r in rules ==> !IsLocked(r, names)
    ensures SameFinish(Run(env, rules, locked + names, s), Run(env, rules, locked, s))
  {
    hide Exec;
    if rules != [] {
      var r, rest := rules[0], rules[1..];
      assert r in rules;
      if IsLocked(r, locked) {
        LocksOfOthers(env, names, rest, locked, s);
      } else {
        var (s', o) := Exec(env, r, s);
        assert LockedAfter(r, locked + names) == LockedAfter(r, locked) + names;
        if o != Failed {
          LocksOfOthers(env, names, rest, if o == Done then LockedAfter(r, locked) else locked, s');
        }
      }
    }
  }

  lemma {:induction false} PrunedOthers(names: set<string>, rules: seq<Rule>)
    ensures forall r :: r in Pruned(names, rules) ==> !IsLocked(r, names)
  {
    if rules != [] {
      PrunedOthers(names, rules[1..]);
    }
  }

  /** A pass rule edits nothing, but it does have an effect: the exact rules of its name behind it are not run. It has
      none with -n, as a wildcard, when its condition is not met, or when its name is locked already. */
  lemma {:induction false} PassTakesOthersOut<S>(env: Env<S>, pass: Rule, rules: seq<Rule>, locked: set<string>, s: S)
    requires pass.opcode == Pass && Check(env, pass, s) != Broken
    ensures var effect := !IsLocked(pass, locked) && Check(env, pass, s) == Met && !pass.wildcard && !pass.next;
            SameFinish(Run(env, [pass] + rules, locked, s),
                       Run(env, if effect then Pruned({Lower(pass.key)}, rules) else rules, locked, s))
  {
    RunCons(env, pass, rules, locked, s);
    hide Run, Check, Lower;
    if !IsLocked(pass, locked) && Check(env, pass, s) == Met && !pass.wildcard && !pass.next {
      var names := {Lower(pass.key)};
      PrunedRun(env, names, rules, locked + names, s);
      PrunedOthers(names, rules);
      LocksOfOthers(env, names, Pruned(names, rules), locked, s);
    }
  }

  /** An exact rule of the name `k` that is no pass rule is reached while the name is not locked: no unconditional pass
      rule without -n stands in front of it. */
  predicate Reaches(k: string, rules: seq<Rule>) {
    rules != [] &&
    var rule := rules[0];
    if rule.wildcard || Lower(rule.key) != k then Reaches(k, rules[1..])
    else rule.opcode != Pass || (rule.next && Reaches(k, rules[1..]))
  }

  /** The pass rules of a name have no condition. */
  predicate PlainPasses(k: string, rules: seq<Rule>) {
    forall r :: r in rules && !r.wildcard && Lower(r.key) == k && r.opcode == Pass ==> r.filter == None
  }

  /** If no such rule is reached, it does not matter whether the name is locked. */
  lemma {:induction false} LockWithoutEffect<S>(env: Env<S>, k: string, rules: seq<Rule>, locked: set<string>, s: S)
    requires !Reaches(k, rules) && PlainPasses(k, rules)
    ensures SameFinish(Run(env, rules, locked + {k}, s), Run(env, rules, locked, s))
  {
    hide Exec, Lower;
    if k in locked {
      assert locked + {k} == locked;
    } else if rules != [] {
      var r, rest := rules[0], rules[1..];
      assert r in rules;
      if !r.wildcard && Lower(r.key) == k {
        PassRuns(env, r, s);
        if r.next {
          LockWithoutEffect(env, k, rest, locked, s);
        }
        assert rules == [r] + rest;
        BehindPass(env, k, r, rest, locked, s);
      } else if IsLocked(r, locked) {
        LockWithoutEffect(env, k, rest, locked, s);
      } else {
        var (s', o) := Exec(env, r, s);
        assert LockedAfter(r, locked + {k}) == LockedAfter(r, locked) + {k};
        if o != Failed {
          LockWithoutEffect(env, k, rest, if o == Done then LockedAfter(r, locked) else locked, s');
        }
      }
    }
  }

  /** Behind a pass rule of the name: with -n nothing has changed, and without it the name is locked in any case. */
  lemma {:induction false} BehindPass<S>(env: Env<S>, k: string, r: Rule, rest: seq<Rule>, locked: set<string>, s: S)
    requires r.opcode == Pass && !r.wildcard && Lower(r.key) == k && k !in locked && Exec(env, r, s) == (s, Done)
    requires r.next ==> SameFinish(Run(env, rest, locked + {k}, s), Run(env, rest, locked, s))
    ensures SameFinish(Run(env, [r] + rest, locked + {k}, s), Run(env, [r] + rest, locked, s))
  {
    hide Exec, Lower;
    RunCons(env, r, rest, locked, s);
    RunCons(env, r, rest, locked + {k}, s);
    hide Run;
  }

  lemma {:induction false} PassRuns<S>(env: Env<S>, r: Rule, s: S)
    requires r.opcode == Pass && r.filter == None
    ensures Exec(env, r, s) == (s, Done)
  {
  }

  // An environment that tells whether such a rule was reached: it counts the executed rules of the name, and every
  // evaluation gives `v`.
  function Counting(k: string, v: string): Env<int> {
    Env((e: string, n: int) => Some(v),
        (r: Rule, value: string, n: int) => (if !r.wildcard && Lower(r.key) == k then n + 1 else n, true))
  }

  /** While the name is locked, it counts nothing. */
  lemma {:induction false} CountsNothing(k: string, v: string, rules: seq<Rule>, locked: set<string>, n: int)
    requires k in locked
    ensures Run(Counting(k, v), rules, locked, n).state == n
  {
    hide Lower;
    if rules != [] {
      var r := rules[0];
      if IsLocked(r, locked) {
        CountsNothing(k, v, rules[1..], locked, n);
      } else {
        var (n', o) := Exec(Counting(k, v), r, n);
        assert n' == n && o != Failed;
        CountsNothing(k, v, rules[1..], if o == Done then LockedAfter(r, locked) else locked, n');
      }
    }
  }

  lemma {:induction false} CountsUp(k: string, v: string, rules: seq<Rule>, locked: set<string>, n: int)
    ensures Run(Counting(k, v), rules, locked, n).state >= n
  {
    hide Lower;
    if rules != [] {
      var r := rules[0];
      if IsLocked(r, locked) {
        CountsUp(k, v, rules[1..], locked, n);
      } else {
        var (n', o) := Exec(Counting(k, v), r, n);
        CountsUp(k, v, rules[1..], if o == Done then LockedAfter(r, locked) else locked, n');
      }
    }
  }

  /** A value with which the rule that is reached has its condition met, if it has one. */
  function Meeting(k: string, rules: seq<Rule>): string {
    if rules == [] then ""
    else
      var rule := rules[0];
      if rule.wildcard || Lower(rule.key) != k || rule.opcode == Pass then Meeting(k, rules[1..])
      else if rule.filter.Some? && !rule.filter.value.negative then "1" else ""
  }

  /** While it is not, the rule that is reached is counted. */
  lemma {:induction false} CountsReached(k: string, rules: seq<Rule>, locked: set<string>, n: int)
    requires Reaches(k, rules) && PlainPasses(k, rules) && k !in locked
    ensures Run(Counting(k, Meeting(k, rules)), rules, locked, n).state > n
  {
    hide Lower;
    var r, rest, env := rules[0], rules[1..], Counting(k, Meeting(k, rules));
    assert r in rules;
    if !r.wildcard && Lower(r.key) == k && r.opcode != Pass {
      var (n', o) := Exec(env, r, n);
      assert n' == n + 1 && o == Done;
      CountsUp(k, Meeting(k, rules), rest, LockedAfter(r, locked), n');
    } else if IsLocked(r, locked) {
      CountsReached(k, rest, locked, n);
    } else {
      var (n', o) := Exec(env, r, n);
      assert n' == n && o != Failed;
      CountsReached(k, rest, if o == Done then LockedAfter(r, locked) else locked, n');
    }
  }

  /** An unconditional exact pass rule without -n, whose name is not locked, has no effect on any run exactly if no
      exact rule of its name that is no pass rule would have been reached behind it. */
  lemma {:induction false} PassHasNoEffect(pass: Rule, rules: seq<Rule>, locked: set<string>)
    requires pass.opcode == Pass && pass.filter == None && !pass.wildcard && !pass.next && Lower(pass.key) !in locked
    requires PlainPasses(Lower(pass.key), rules)
    ensures (forall env: Env<int>, s: int ::
            SameFinish(Run(env, [pass] + rules, locked, s), Run(env, rules, locked, s)))
       <==> !Reaches(Lower(pass.key), rules)
  {
    hide Run, Reaches, Lower, PlainPasses, Counting;
    var k := Lower(pass.key);
    forall env: Env<int>,
        s: int ensures SameFinish(Run(env, [pass] + rules, locked, s), Run(env, rules, locked + {k}, s)) {
      PassLocks(env, pass, rules, locked, s);
    }
    if Reaches(k, rules) {
      var env := Counting(k, Meeting(k, rules));
      CountsNothing(k, Meeting(k, rules), rules, locked + {k}, 0);
      CountsReached(k, rules, locked, 0);
      assert !SameFinish(Run(env, [pass] + rules, locked, 0), Run(env, rules, locked, 0));
    } else {
      forall env: Env<int>, s: int ensures SameFinish(Run(env, [pass] + rules, locked, s), Run(env, rules, locked, s)) {
        LockWithoutEffect(env, k, rules, locked, s);
      }
    }
  }

  lemma {:induction false} PassLocks<S>(env: Env<S>, pass: Rule, rules: seq<Rule>, locked: set<string>, s: S)
    requires pass.opcode == Pass && pass.filter == None && !pass.wildcard && !pass.next && Lower(pass.key) !in locked
    ensures SameFinish(Run(env, [pass] + rules, locked, s), Run(env, rules, locked + {Lower(pass.key)}, s))
  {
    PassRuns(env, pass, s);
    RunCons(env, pass, rules, locked, s);
    hide Run, Exec, Lower;
  }

  // ---------- inheriting is associative ----------

  lemma {:induction false} PrunedConcat(names: set<string>, a: seq<Rule>, b: seq<Rule>)
    ensures Pruned(names, a + b) == Pruned(names, a) + Pruned(names, b)
  {
    if a == [] {
      assert a + b == b;
    } else {
      assert (a + b)[1..] == a[1..] + b;
      PrunedConcat(names, a[1..], b);
    }
  }

  lemma {:induction false} PrunedTwice(m: set<string>, n: set<string>, rules: seq<Rule>)
    ensures Pruned(m, Pruned(n, rules)) == Pruned(m + n, rules)
  {
    if rules != [] {
      PrunedTwice(m, n, rules[1..]);
      PrunedConcat(m, if IsLocked(rules[0], n) then [] else [rules[0]], Pruned(n, rules[1..]));
    }
  }

  lemma {:induction false} DisabledConcat(a: seq<Rule>, b: seq<Rule>)
    ensures DisabledNames(a + b) == DisabledNames(a) + DisabledNames(b)
  {
    if a == [] {
      assert a + b == b;
    } else {
      assert (a + b)[1..] == a[1..] + b;
      DisabledConcat(a[1..], b);
    }
  }

  /** What pruning takes away switches off nothing that was not switched off already. */
  lemma {:induction false} DisabledPruned(names: set<string>, rules: seq<Rule>)
    ensures names + DisabledNames(Pruned(names, rules)) == names + DisabledNames(rules)
  {
    if rules != [] {
      DisabledPruned(names, rules[1..]);
      DisabledConcat(if IsLocked(rules[0], names) then [] else [rules[0]], Pruned(names, rules[1..]));
    }
  }

  /** It does not matter which of two levels of inheritance is resolved first. */
  lemma {:induction false} InheritAssociative(a: seq<Rule>, b: seq<Rule>, c: seq<Rule>)
    ensures Inherit(a, Inherit(b, c)) == Inherit(Inherit(a, b), c)
  {
    hide Pruned, DisabledNames;
    var m, n := DisabledNames(a), DisabledNames(b);
    PrunedConcat(m, b, Pruned(n, c));
    PrunedTwice(m, n, c);
    DisabledConcat(a, Pruned(m, b));
    DisabledPruned(m, b);
    assert a + (Pruned(m, b) + Pruned(m + n, c)) == a + Pruned(m, b) + Pruned(m + n, c);
  }

  lemma {:induction false} InheritEmpty(rules: seq<Rule>)
    ensures Inherit([], rules) == rules && Inherit(rules, []) == rules
  {
    PrunedNothing(rules);
  }

  lemma {:induction false} PrunedNothing(rules: seq<Rule>)
    ensures Pruned({}, rules) == rules
  {
    if rules != [] {
      PrunedNothing(rules[1..]);
    }
  }
}
