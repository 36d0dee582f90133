/** Whole runs on both sides, seen as runs of the abstract edit on names and values. */
module Refinement {
  import opened Names
  import opened HeaderEdit
  import opened Rules
  import opened RuleEngine
  import opened RequestState
  import opened AbstractEdit
  import opened ResponseEdit
  import opened ResponseState
  import opened RequestRun
  import opened ResponseRun

  /** Rules run on names and values. */
  function AbstractEnv(eval: (string, seq<Header>) -> Option<string>): Env<seq<Header>> {
    Env(eval, (rule: Rule, v: string, s: seq<Header>) => (EditHeaders(rule, v, rule.ResponseTarget(), s), true))
  }

  /** `view` commutes with evaluating and with handling the given rules. */
  ghost predicate Projects<S(!new), H>(a: Env<S>, b: Env<H>, view: S -> H, rules: seq<Rule>) {
    && (forall e: string, s: S :: a.eval(e, s) == b.eval(e, view(s)))
    && (forall r: Rule, s: S, v: string {:trigger a.handle(r, v, s)} ::
          r in rules && r.opcode != Pass && Value(a, r, s) == Some(v) ==>
          view(a.handle(r, v, s).0) == b.handle(r, v, view(s)).0 && a.handle(r, v, s).1 == b.handle(r, v, view(s)).1)
  }

  /** Then running commutes with `view`. */
  lemma {:induction false} RunProjects<S(!new), H>(a: Env<S>, b: Env<H>, view: S -> H, rules: seq<Rule>,
                                         locked: set<string>, s: S)
    requires Projects(a, b, view, rules)
    ensures var x, y := Run(a, rules, locked, s), Run(b, rules, locked, view(s));
            view(x.state) == y.state && x.ok == y.ok && x.locked == y.locked && x.trace == y.trace
  {
    if rules != [] {
      var r := rules[0];
      assert Projects(a, b, view, rules[1..]);
      if IsLocked(r, locked) {
        RunProjects(a, b, view, rules[1..], locked, s);
      } else {
        ExecProjects(a, b, view, rules, s);
        var (s', o) := Exec(a, r, s);
        if o != Failed {
          RunProjects(a, b, view, rules[1..], if o == Done then LockedAfter(r, locked) else locked, s');
        }
      }
    }
  }

  lemma {:induction false} ExecProjects<S(!new), H>(a: Env<S>, b: Env<H>, view: S -> H, rules: seq<Rule>, s: S)
    requires Projects(a, b, view, rules) && rules != []
    ensures var x, y := Exec(a, rules[0], s), Exec(b, rules[0], view(s)); view(x.0) == y.0 && x.1 == y.1
  {
    var r := rules[0];
    assert Check(a, r, s) == Check(b, r, view(s));
    assert Value(a, r, s) == Value(b, r, view(s));
    if Value(a, r, s).Some? {
      var x := a.handle(r, Value(a, r, s).value, s);
    }
  }

  /** A rule on a generic name that both sides treat alike: it has a hash, a wildcard clears, and what is appended is
      never empty. */
  ghost predicate Alike(rule: Rule, eval: (string, seq<Header>) -> Option<string>) {
    && rule.handler == Generic && rule.hash != 0
    && (rule.wildcard ==> (rule.opcode == Clear || rule.opcode == Pass) && rule.template == "")
    && (rule.opcode == Append ==> rule.template != "" && forall s: seq<Header> :: eval(rule.template, s) != Some(""))
  }

  /** The conditions and values of both sides are the same functions of the headers a client sees. */
  function RequestEval(eval: (string, seq<Header>) -> Option<string>): (string, RequestView) -> Option<string> {
    (e: string, w: RequestView) => eval(e, AllHeaders(w.entries))
  }

  function ResponseEval(eval: (string, seq<Header>) -> Option<string>): (string, ResponseView) -> Option<string> {
    (e: string, w: ResponseView) => eval(e, Visible(w.entries))
  }

  lemma {:induction false} RequestRunRefines(eval: (string, seq<Header>) -> Option<string>, rules: seq<Rule>,
                                             locked: set<string>, st: ReqState)
    requires forall r :: r in rules ==> Alike(r, eval)
    ensures var x, y := Run(RequestEnv(RequestEval(eval)), rules, locked, st),
            Run(AbstractEnv(eval), rules, locked, AllHeaders(st.entries));
            AllHeaders(x.state.entries) == y.state && x.ok == y.ok && x.trace == y.trace
  {
    var a, b := RequestEnv(RequestEval(eval)), AbstractEnv(eval);
    var view := (s: ReqState) => AllHeaders(s.entries);
    forall r: Rule, s: ReqState, v: string | r in rules && r.opcode != Pass && Value(a, r, s) == Some(v)
      ensures view(a.handle(r, v, s).0) == b.handle(r, v, view(s)).0 && a.handle(r, v, s).1 == b.handle(r, v, view(s)).1
    {
      assert Alike(r, eval);
      AppliedKeeps(r, v, s);
      DeletionRefines(r, v, s.entries);
    }
    forall e: string, s: ReqState ensures a.eval(e, s) == b.eval(e, view(s)) {
      assert s.View().entries == s.entries;
      assert a.eval(e, s) == RequestEval(eval)(e, s.View());
    }
    RunProjects(a, b, view, rules, locked, st);
  }

  lemma {:induction false} ResponseRunRefines(eval: (string, seq<Header>) -> Option<string>, rules: seq<Rule>,
                                              locked: set<string>, st: ResState)
    requires forall r :: r in rules ==> Alike(r, eval)
    ensures var x, y := Run(ResponseEnv(ResponseEval(eval)), rules, locked, st),
            Run(AbstractEnv(eval), rules, locked, Visible(st.entries));
            Visible(x.state.entries) == y.state && x.ok == y.ok && x.trace == y.trace
  {
    var a, b := ResponseEnv(ResponseEval(eval)), AbstractEnv(eval);
    var view := (s: ResState) => Visible(s.entries);
    forall r: Rule, s: ResState, v: string | r in rules && r.opcode != Pass && Value(a, r, s) == Some(v)
      ensures view(a.handle(r, v, s).0) == b.handle(r, v, view(s)).0 && a.handle(r, v, s).1 == b.handle(r, v, view(s)).1
    {
      assert Alike(r, eval);
      assert a.eval(r.template, s) == ResponseEval(eval)(r.template, s.View()) == eval(r.template, Visible(s.entries));
      MarkingRefines(r, v, false, s.entries);
    }
    forall e: string, s: ResState ensures a.eval(e, s) == b.eval(e, view(s)) {
      assert s.View().entries == s.entries;
      assert a.eval(e, s) == ResponseEval(eval)(e, s.View());
    }
    RunProjects(a, b, view, rules, locked, st);
  }

  /** The same rules, run on the same headers as request rules and as response rules, leave the same headers and stop
      at the same rule, if at any. */
  lemma {:induction false} SidesAgree(eval: (string, seq<Header>) -> Option<string>, rules: seq<Rule>, req: ReqState,
                                      res: ResState)
    requires forall r :: r in rules ==> Alike(r, eval)
    requires AllHeaders(req.entries) == Visible(res.entries)
    ensures var x, y := Run(RequestEnv(RequestEval(eval)), rules, {}, req),
            Run(ResponseEnv(ResponseEval(eval)), rules, {}, res);
            AllHeaders(x.state.entries) == Visible(y.state.entries) && x.ok == y.ok && x.trace == y.trace
  {
    RequestRunRefines(eval, rules, {}, req);
    ResponseRunRefines(eval, rules, {}, res);
  }

  /** A pass rule in front of a set takes it out of the run. */
  lemma {:induction false} PassHidesSet()
    ensures var env := AbstractEnv((e: string, s: seq<Header>) => Some(e));
            var pass := Rule("X-Foo", 1, Pass, false, false, None, "", Generic);
            var rule := Rule("X-Foo", 1, Set, false, false, None, "a", Generic);
            Run(env, [pass, rule], {}, []).state == [] && Run(env, [rule], {}, []).state == [Header("X-Foo", "a")]
  {
    hide Lower;
    var env := AbstractEnv((e: string, s: seq<Header>) => Some(e));
    var pass, rule := Rule("X-Foo", 1, Pass, false, false, None, "", Generic),
        Rule("X-Foo", 1, Set, false, false, None, "a", Generic);
    assert [pass, rule][1..] == [rule] && [rule][1..] == [];
    assert env.eval("a", []) == Some("a");
    assert EditHeaders(rule, "a", rule.ResponseTarget(), []) == [Header("X-Foo", "a")];
    assert Exec(env, pass, []) == ([], Done) && Exec(env, rule, []) == ([Header("X-Foo", "a")], Done);
    assert [pass, rule] == [pass] + [rule] && [rule] == [rule] + [];
    hide Run, Exec;
    RunCons(env, rule, [], {Lower("X-Foo")}, []);
    RunCons(env, rule, [], {}, []);
    RunCons(env, pass, [rule], {}, []);
    RunStep(env, [], {Lower("X-Foo")}, []);
    RunStep(env, [], {Lower("X-Foo")}, [Header("X-Foo", "a")]);
  }
}
