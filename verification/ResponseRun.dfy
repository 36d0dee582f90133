/** The run of the response rules in the header filter. */
module ResponseRun {
  import opened Names
  import opened HeaderEdit
  import opened Rules
  import opened RuleEngine
  import opened LockTables
  import opened RequestState
  import opened ResponseState
  import opened ResponseHeaders

  /** Rules run on responses. Conditions and values are arbitrary functions of the headers and the derived values. */
  function ResponseEnv(eval: (string, ResponseView) -> Option<string>): Env<ResState> {
    Env((e: string, st: ResState) => eval(e, st.View()), HandleResponse)
  }

  /** One rule on a response. */
  method ExecRule(r: Response, rule: Rule, eval: (string, ResponseView) -> Option<string>) returns (o: Outcome)
    requires r.Valid() && Suits(rule, r.fields.Keys, r.chains.Keys)
    modifies r, r.headers.Repr
    ensures r.fields.Keys == old(r.fields.Keys) && r.chains.Keys == old(r.chains.Keys)
    ensures r.Valid() && old(r.headers.Repr) <= r.headers.Repr && fresh(r.headers.Repr - old(r.headers.Repr))
    ensures (r.State(), o) == Exec(ResponseEnv(eval), rule, old(r.State()))
  {
    hide HandleResponse;
    var entries := r.headers.ToSeq();
    var view := ResponseView(entries, r.contentType, r.typeLen, r.charset, r.contentLength);
    assert view == r.State().View();
    if rule.filter.Some? {
      var val := eval(rule.filter.value.expr, view);
      if val == None {
        return Failed;
      }
      if val.value == "" || val.value == "0" {
        if !rule.filter.value.negative {
          return Declined;
        }
      } else if rule.filter.value.negative {
        return Declined;
      }
    }
    if rule.opcode == Pass {
      return Done;
    }
    var value := if rule.template == "" then Some("") else eval(rule.template, view);
    if value == None {
      return Failed;
    }
    var ok := r.Dispatch(rule, value.value);
    o := if ok then Done else Failed;
  }

  /** The run: it leaves the response, and reports, what the rules mean on it. */
  method RunRules(r: Response, hs: seq<HeaderVal>, cnt: nat, eval: (string, ResponseView) -> Option<string>, width: nat,
                  stride: nat)
    returns (ok: bool)
    requires r.Valid() && Numbered(hs) && cnt == |hs| && 0 < stride <= width
    requires forall i :: 0 <= i < |hs| ==> Suits(hs[i].rule, r.fields.Keys, r.chains.Keys)
    modifies r, r.headers.Repr
    ensures r.fields.Keys == old(r.fields.Keys) && r.chains.Keys == old(r.chains.Keys)
    ensures r.Valid() && old(r.headers.Repr) <= r.headers.Repr && fresh(r.headers.Repr - old(r.headers.Repr))
    ensures var end := Run(ResponseEnv(eval), RulesOf(hs), {}, old(r.State())); r.State() == end.state && ok == end.ok
  {
    hide Run, Exec, LockTable.Valid, Response.Valid, Response.State, IsLocked, LockedAfter, Suits;
    ghost var env, rules := ResponseEnv(eval), RulesOf(hs);
    ghost var end := Run(env, rules, {}, r.State());
    var table := new LockTable(hs, cnt, width, stride);
    var i := 0;
    assert rules[0..] == rules;
    while i < |hs|
      invariant i <= |hs| && table.Valid(i) && table.hs == hs && fresh(table) && fresh(table.locked.bits)
      invariant r.fields.Keys == old(r.fields.Keys) && r.chains.Keys == old(r.chains.Keys)
      invariant r.Valid() && old(r.headers.Repr) <= r.headers.Repr && fresh(r.headers.Repr - old(r.headers.Repr))
      invariant table !in r.headers.Repr && table.locked !in r.headers.Repr && table.locked.bits !in r.headers.Repr
      invariant SameFinish(end, Run(env, rules[i..], table.names, r.State()))
    {
      RunStep(env, rules[i..], table.names, r.State());
      assert rules[i..][1..] == rules[i + 1..];
      var isLocked := table.IsLockedAt(i);
      table.Later(i);
      if !isLocked {
        var o := ExecRule(r, hs[i].rule, eval);
        if o == Failed {
          return false;
        }
        if o == Done {
          table.RanAt(i);
        }
      }
      i := i + 1;
    }
    RunStep(env, rules[i..], table.names, r.State());
    return true;
  }

  /** A rule that gets to run and gives Content-Length a value that is no size ends the run: the response stays as it
      is and no later rule runs. */
  lemma {:induction false} InvalidValueStops(eval: (string, ResponseView) -> Option<string>, rule: Rule,
                                             rest: seq<Rule>, locked: set<string>, st: ResState, v: string)
    requires rule.filter == None && (rule.wildcard || Lower(rule.key) !in locked)
    requires rule.opcode != Pass && rule.template != "" && v != ""
    requires var view := ResponseView(st.entries, st.contentType, st.typeLen, st.charset, st.contentLength);
             eval(rule.template, view) == Some(v)
    requires rule.handler == ContentLength && ParseSize(v) == None
    ensures Run(ResponseEnv(eval), [rule] + rest, locked, st) == Result(st, false, locked, [Failed])
  {
    hide ParseSize, Run;
    assert st.View() == ResponseView(st.entries, st.contentType, st.typeLen, st.charset, st.contentLength);
    HandledRule(ResponseEnv(eval), rule, rest, locked, st, "", v);
  }
}
