/** The run of the request rules at the end of the rewrite phase. */
module RequestRun {
  import opened Names
  import opened HeaderEdit
  import opened Rules
  import opened RuleEngine
  import opened RequestState
  import opened RequestAgreement
  import opened RequestHeaders
  import opened LockTables
  import HostValidator
  import Machine

  /** Rules run on requests. Conditions and values are arbitrary functions of the headers and the derived values. */
  function RequestEnv(eval: (string, RequestView) -> Option<string>): Env<ReqState> {
    Env((e: string, st: ReqState) => eval(e, st.View()), Handle)
  }

  /** Evaluated values are shorter than the address space. */
  ghost predicate FitsMemory(eval: (string, RequestView) -> Option<string>) {
    forall e: string, w: RequestView :: eval(e, w).Some? ==> |eval(e, w).value| < Machine.SIZE_MAX
  }

  /** The rule is not executed on `st`, or the behaviour of its handler is defined. */
  predicate DefinedOn(env: Env<ReqState>, rule: Rule, st: ReqState) {
    Check(env, rule, st) == Met && rule.opcode != Pass && Value(env, rule, st).Some? ==>
      Defined(rule, Value(env, rule, st).value, st)
  }

  /** So it is for every rule that the run executes. */
  predicate DefinedRun(env: Env<ReqState>, rules: seq<Rule>, locked: set<string>, st: ReqState) {
    if rules == [] then true
    else if IsLocked(rules[0], locked) then DefinedRun(env, rules[1..], locked, st)
    else
      && DefinedOn(env, rules[0], st)
      && var (st', o) := Exec(env, rules[0], st);
         o != Failed ==> DefinedRun(env, rules[1..], if o == Done then LockedAfter(rules[0], locked) else locked, st')
  }

  /** It is if the rules on multi-valued names only set, clear or pass. */
  lemma {:induction false} SettingIsDefined(env: Env<ReqState>, rules: seq<Rule>, locked: set<string>, st: ReqState)
    requires forall r :: r in rules && r.handler == Multi ==> r.opcode == Set || r.opcode == Clear || r.opcode == Pass
    ensures DefinedRun(env, rules, locked, st)
  {
    hide Exec, Check, Value, IsLocked;
    if rules != [] {
      assert rules[0] in rules;
      if IsLocked(rules[0], locked) {
        SettingIsDefined(env, rules[1..], locked, st);
      } else {
        var (st', o) := Exec(env, rules[0], st);
        SettingIsDefined(env, rules[1..], if o == Done then LockedAfter(rules[0], locked) else locked, st');
      }
    }
  }

  // ---------- the run ----------

  /** One rule on a request. */
  method ExecRule(r: Request, rule: Rule, eval: (string, RequestView) -> Option<string>) returns (o: Outcome)
    requires r.Valid() && FitsMemory(eval) && Admissible(rule, r.fields.Keys)
             && DefinedOn(RequestEnv(eval), rule, r.State())
    modifies r, r.headers.Repr
    ensures r.Valid() && r.fields.Keys == old(r.fields.Keys)
    ensures old(r.headers.Repr) <= r.headers.Repr && fresh(r.headers.Repr - old(r.headers.Repr))
    ensures (r.State(), o) == Exec(RequestEnv(eval), rule, old(r.State()))
  {
    hide Handle, Admissible, Defined, Request.Valid;
    OwnList(r);
    var entries := r.headers.ToSeq();
    var view := RequestView(entries, r.server, r.contentLength, r.badRequest);
    assert view == r.State().View();
    if rule.filter.Some? {
      var val := eval(rule.filter.value.expr, view);
      if val == None {
        return Failed;
      }
      if val.value == "" || val.value == "0" {
        if !rule.filter.value.negative {
          return Declined;
        }
      } else if rule.filter.value.negative {
        return Declined;
      }
    }
    if rule.opcode == Pass {
      return Done;
    }
    var value := if rule.template == "" then Some("") else eval(rule.template, view);
    if value == None {
      return Failed;
    }
    var ok := r.Dispatch(rule, value.value);
    o := if ok then Done else Failed;
  }

  lemma {:induction false} OwnList(r: Request)
    requires r.Valid()
    ensures r.headers.Valid() && r !in r.headers.Repr
  {
  }

  /** The run. Whatever the rules are, the request ends as they mean, and the run reports whether one of them failed. */
  method RunRules(r: Request, hs: seq<HeaderVal>, cnt: nat, eval: (string, RequestView) -> Option<string>, width: nat,
                  stride: nat)
    returns (ok: bool)
    requires r.Valid() && FitsMemory(eval)
    requires Numbered(hs) && cnt == |hs| && 0 < stride <= width
    requires forall i :: 0 <= i < |hs| ==> Admissible(hs[i].rule, r.fields.Keys)
    requires DefinedRun(RequestEnv(eval), RulesOf(hs), {}, r.State())
    modifies r, r.headers.Repr
    ensures r.Valid() && r.fields.Keys == old(r.fields.Keys)
    ensures old(r.headers.Repr) <= r.headers.Repr && fresh(r.headers.Repr - old(r.headers.Repr))
    ensures var end := Run(RequestEnv(eval), RulesOf(hs), {}, old(r.State())); r.State() == end.state && ok == end.ok
  {
    hide Run, Exec, LockTable.Valid, Request.Valid, Request.State, Admissible, IsLocked, LockedAfter, DefinedRun,
        DefinedOn, FitsMemory;
    ghost var env, rules := RequestEnv(eval), RulesOf(hs);
    ghost var end := Run(env, rules, {}, r.State());
    OwnList(r);
    var table := new LockTable(hs, cnt, width, stride);
    var i := 0;
    assert rules[0..] == rules;
    while i < |hs|
      invariant i <= |hs| && table.Valid(i) && table.hs == hs && fresh(table) && fresh(table.locked.bits)
      invariant r.Valid() && r.fields.Keys == old(r.fields.Keys)
      invariant old(r.headers.Repr) <= r.headers.Repr && fresh(r.headers.Repr - old(r.headers.Repr))
      invariant table !in r.headers.Repr && table.locked !in r.headers.Repr && table.locked.bits !in r.headers.Repr
      invariant SameFinish(end, Run(env, rules[i..], table.names, r.State()))
      invariant DefinedRun(env, rules[i..], table.names, r.State())
    {
      RunStep(env, rules[i..], table.names, r.State());
      DefinedStep(env, rules[i..], table.names, r.State());
      assert rules[i..][1..] == rules[i + 1..];
      var isLocked := table.IsLockedAt(i);
      table.Later(i);
      if !isLocked {
        var o := ExecRule(r, hs[i].rule, eval);
        if o == Failed {
          return false;
        }
        if o == Done {
          table.RanAt(i);
        }
      }
      i := i + 1;
    }
    RunStep(env, rules[i..], table.names, r.State());
    return true;
  }

  lemma {:induction false} DefinedStep(env: Env<ReqState>, rules: seq<Rule>, locked: set<string>, st: ReqState)
    requires rules != [] && DefinedRun(env, rules, locked, st)
    ensures IsLocked(rules[0], locked) ==> DefinedRun(env, rules[1..], locked, st)
    ensures !IsLocked(rules[0], locked) ==>
              && DefinedOn(env, rules[0], st)
              && var (st', o) := Exec(env, rules[0], st);
                 o != Failed ==> DefinedRun(env, rules[1..], if o == Done then LockedAfter(rules[0], locked)
                     else locked, st')
  {
    hide Exec, IsLocked, DefinedOn;
  }

  /** A rule that gets to run and gives Host a value outside the grammar, or Content-Length one that is no size, ends
      the run: the request stays as it is and no later rule runs. */
  lemma {:induction false} InvalidValueStops(eval: (string, RequestView) -> Option<string>, rule: Rule,
                                             rest: seq<Rule>, locked: set<string>, st: ReqState, v: string)
    requires rule.filter == None && (rule.wildcard || Lower(rule.key) !in locked)
    requires rule.opcode != Pass && rule.template != "" && v != ""
    requires var view := RequestView(st.entries, st.server, st.contentLength, st.badRequest);
             eval(rule.template, view) == Some(v)
    requires || (rule.handler == Host && !HostValidator.Accepted(v))
             || (rule.handler == ContentLength && ParseSize(v) == None)
    ensures Run(RequestEnv(eval), [rule] + rest, locked, st) == Result(st, false, locked, [Failed])
  {
    hide HostValidator.Accepted, HostValidator.Accepts, ParseSize, Run;
    HostValidator.AcceptsIsAccepted(v);
    assert st.View() == RequestView(st.entries, st.server, st.contentLength, st.badRequest);
    HandledRule(RequestEnv(eval), rule, rest, locked, st, "", v);
  }

  // ---------- the builtin fields over a run ----------

  /** The rule cannot leave the field of a name wrong: it does not delete the name by prefix, nor add to it if it is
      multi-valued. */
  ghost predicate Spares(rule: Rule, b: string) {
    && (rule.wildcard && (rule.opcode == Set || rule.opcode == Clear || rule.opcode == Rewrite) ==>
          !HasPrefix(b, rule.Stem()))
    && (rule.handler == Multi && rule.opcode == Add ==> Lower(rule.key) != b)
  }

  /** Such rules keep the field of a name right through every run, failing runs and runs that leave other fields behind
      included. */
  lemma {:induction false} RunKeepsRight(b: string, eval: (string, RequestView) -> Option<string>, rules: seq<Rule>,
                                         locked: set<string>, st: ReqState)
    requires Right(b, st) && DefinedRun(RequestEnv(eval), rules, locked, st)
    requires forall r :: r in rules ==> Admissible(r, st.fields.Keys) && Spares(r, b)
    ensures Right(b, Run(RequestEnv(eval), rules, locked, st).state)
  {
    hide Handle, Right, Admissible, Spares, Check, Value, IsLocked, Defined;
    if rules != [] {
      var rule, env := rules[0], RequestEnv(eval);
      assert rule in rules;
      if IsLocked(rule, locked) {
        RunKeepsRight(b, eval, rules[1..], locked, st);
      } else {
        var (st', o) := Exec(env, rule, st);
        if Check(env, rule, st) == Met && rule.opcode != Pass && Value(env, rule, st).Some? {
          SparingKeepsRight(b, rule, Value(env, rule, st).value, st);
        }
        if o != Failed {
          RunKeepsRight(b, eval, rules[1..], if o == Done then LockedAfter(rule, locked) else locked, st');
        }
      }
    }
  }

  lemma {:induction false} SparingKeepsRight(b: string, rule: Rule, v: string, st: ReqState)
    requires Right(b, st) && Admissible(rule, st.fields.Keys) && Spares(rule, b) && Defined(rule, v, st)
    requires rule.opcode != Pass
    ensures Right(b, Handle(rule, v, st).0) && Handle(rule, v, st).0.fields.Keys == st.fields.Keys
  {
    hide Handle, Unset;
    HandleKeepsRight(b, rule, v, st);
    HandleFields(rule, v, st);
  }

  lemma {:induction false} SparingHarmless(rule: Rule, v: string, st: ReqState)
    requires Coherent(st) && Admissible(rule, st.fields.Keys) && forall b :: b in st.fields ==> Spares(rule, b)
    requires rule.opcode != Pass
    ensures Harmless(rule, v, st)
  {
    forall b | b in st.fields ensures Lower(b) == b {
    }
    hide Coherent;
  }

  // ---------- what goes wrong otherwise ----------

  /** A rule with a value on a builtin name whose field has been left behind changes no header. */
  lemma {:induction false} LeftBehind(rule: Rule, v: string, st: ReqState)
    requires st.Field(Lower(rule.key)).Some? && st.Field(Lower(rule.key)).value !in st.ids
    requires v != "" && rule.opcode != Append
    ensures SetBuiltin(rule, v, st) == st
  {
  }
}
