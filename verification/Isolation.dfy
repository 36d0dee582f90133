/** Headers of different names do not interfere. */
module Isolation {
  import opened Names
  import opened HeaderEdit
  import opened Rules
  import opened RuleEngine
  import opened RequestState
  import opened AbstractEdit
  import opened ResponseEdit
  import opened ResponseState
  import opened RequestRun
  import opened ResponseRun
  import opened Refinement

  /** The headers named `n`. */
  function OfName(n: string, s: seq<Header>): seq<Header> {
    if s == [] then [] else (if SameName(s[0].name, n) then [s[0]] else []) + OfName(n, s[1..])
  }

  /** The rules on the name `n`: exact ones, and wildcards that cover it. */
  predicate Concerns(n: string, r: Rule) {
    r.ResponseTarget().Covers(n)
  }

  function Concerning(n: string, rules: seq<Rule>): seq<Rule> {
    if rules == [] then [] else (if Concerns(n, rules[0]) then [rules[0]] else []) + Concerning(n, rules[1..])
  }

  // ---------- one edit ----------

  lemma {:induction false} OfNameCons(n: string, h: Header, s: seq<Header>)
    ensures OfName(n, [h] + s) == (if SameName(h.name, n) then [h] else []) + OfName(n, s)
  {
    assert ([h] + s)[1..] == s;
  }

  lemma {:induction false} OfNameConcat(n: string, a: seq<Header>, b: seq<Header>)
    ensures OfName(n, a + b) == OfName(n, a) + OfName(n, b)
  {
    if a == [] {
      assert a + b == b;
    } else {
      assert (a + b)[1..] == a[1..] + b;
      OfNameConcat(n, a[1..], b);
    }
  }

  /** A target treats all spellings of a name alike. */
  lemma {:induction false} CoversSpelling(r: Rule, a: string, n: string)
    requires SameName(a, n)
    ensures r.ResponseTarget().Covers(a) <==> r.ResponseTarget().Covers(n)
  {
    SamePrefix(a, n, r.Stem());
  }

  lemma {:induction false} OfNameWithout(n: string, r: Rule, s: seq<Header>)
    ensures var t := r.ResponseTarget();
            OfName(n, Without(t, s)) == if Concerns(n, r) then [] else OfName(n, s)
    ensures Concerns(n, r) ==> Without(r.ResponseTarget(), OfName(n, s)) == []
  {
    if s != [] {
      var t := r.ResponseTarget();
      OfNameWithout(n, r, s[1..]);
      if SameName(s[0].name, n) {
        CoversSpelling(r, s[0].name, n);
        assert OfName(n, s) == [s[0]] + OfName(n, s[1..]);
      } else {
        assert OfName(n, s) == OfName(n, s[1..]);
      }
      OfNameConcat(n, if t.Covers(s[0].name) then [] else [s[0]], Without(t, s[1..]));
    }
  }

  lemma {:induction false} OfNameOnlyOne(n: string, r: Rule, v: string, s: seq<Header>)
    requires !r.wildcard
    ensures var t := r.ResponseTarget();
            OfName(n, OnlyOne(v, t, s)) == if Concerns(n, r) then OnlyOne(v, t, OfName(n, s)) else OfName(n, s)
  {
    if s != [] {
      var t := r.ResponseTarget();
      OfNameOnlyOne(n, r, v, s[1..]);
      OfNameWithout(n, r, s[1..]);
      if SameName(s[0].name, n) {
        CoversSpelling(r, s[0].name, n);
        assert OfName(n, s) == [s[0]] + OfName(n, s[1..]);
      } else {
        assert OfName(n, s) == OfName(n, s[1..]);
      }
      if t.Covers(s[0].name) {
        OfNameConcat(n, [s[0].(value := v)], Without(t, s[1..]));
      } else {
        OfNameConcat(n, [s[0]], OnlyOne(v, t, s[1..]));
      }
    }
  }

  lemma {:induction false} OfNamePresent(n: string, r: Rule, s: seq<Header>)
    requires !r.wildcard && Concerns(n, r)
    ensures Present(r.ResponseTarget(), s) <==> Present(r.ResponseTarget(), OfName(n, s))
  {
    if s != [] {
      OfNamePresent(n, r, s[1..]);
      if SameName(s[0].name, n) {
        assert OfName(n, s) == [s[0]] + OfName(n, s[1..]);
        assert OfName(n, s)[1..] == OfName(n, s[1..]);
      } else {
        assert OfName(n, s) == OfName(n, s[1..]);
      }
    }
  }

  /** An edit by a rule on other names leaves the headers of a name alone, and one on the name does not look at
      others. */
  lemma {:induction false} EditOfName(n: string, r: Rule, v: string, s: seq<Header>)
    requires r.wildcard ==> r.opcode == Clear && v == ""
    ensures var t := r.ResponseTarget();
            OfName(n, EditHeaders(r, v, t, s)) == if Concerns(n, r) then EditHeaders(r, v, t, OfName(n, s))
                else OfName(n, s)
  {
    hide OfName, Without, OnlyOne, Present, Lower;
    var t := r.ResponseTarget();
    OfNameConcat(n, s, [Header(r.key, v)]);
    OfNameOne(n, Header(r.key, v));
    OfNameWithout(n, r, s);
    WithoutPresent(t, s);
    WithoutPresent(t, OfName(n, s));
    if !r.wildcard {
      OfNameOnlyOne(n, r, v, s);
      if Concerns(n, r) {
        OfNamePresent(n, r, s);
      }
    }
  }

  lemma {:induction false} OfNameOne(n: string, h: Header)
    ensures OfName(n, [h]) == if SameName(h.name, n) then [h] else []
  {
  }

  lemma {:induction false} AllOfName(n: string, s: seq<Header>)
    ensures forall i :: 0 <= i < |OfName(n, s)| ==> SameName(OfName(n, s)[i].name, n)
  {
    if s != [] {
      AllOfName(n, s[1..]);
    }
  }

  lemma {:induction false} WithoutAll(t: Target, s: seq<Header>)
    requires forall i :: 0 <= i < |s| ==> t.Covers(s[i].name)
    ensures Without(t, s) == []
  {
    if s != [] {
      WithoutAll(t, s[1..]);
    }
  }

  /** What an exact rule makes of the headers of its name: an empty value leaves none; otherwise set leaves one, with
      the value; rewrite leaves one if there was one; add adds one if there was none; append adds one. */
  lemma {:induction false} EditResult(rule: Rule, v: string, s: seq<Header>)
    requires !rule.wildcard
    ensures var before, after := OfName(rule.key, s), OfName(rule.key, EditHeaders(rule, v, Exact(rule.key), s));
            match rule.opcode
            case Append => after == before + [Header(rule.key, v)]
            case Add => after == if before == [] && v != "" then [Header(rule.key, v)] else before
            case Rewrite => after == if before == [] || v == "" then [] else [Header(before[0].name, v)]
            case _ => if v == "" then after == []
                      else |after| == 1 && SameName(after[0].name, rule.key) && after[0].value == v
  {
    var t, before := Exact(rule.key), OfName(rule.key, s);
    EditOfName(rule.key, rule, v, s);
    AllOfName(rule.key, s);
    WithoutAll(t, before);
    if before != [] {
      WithoutAll(t, before[1..]);
    }
  }

  // ---------- whole runs ----------

  /** Conditions and values do not depend on the headers. */
  function Fixed(values: string -> Option<string>): (string, seq<Header>) -> Option<string> {
    (e: string, s: seq<Header>) => values(e)
  }

  /** After a run that does not fail, the headers of a name are those that the rules on this name, run alone, make of
      the headers that had it before. */
  lemma {:induction false} NamesDoNotInterfere(n: string, values: string -> Option<string>, rules: seq<Rule>,
                                               locked: set<string>, locked': set<string>, s: seq<Header>)
    requires forall r :: r in rules ==> Alike(r, Fixed(values))
    requires Lower(n) in locked <==> Lower(n) in locked'
    requires Run(AbstractEnv(Fixed(values)), rules, locked, s).ok
    ensures var end := Run(AbstractEnv(Fixed(values)), Concerning(n, rules), locked', OfName(n, s));
            end.ok && end.state == OfName(n, Run(AbstractEnv(Fixed(values)), rules, locked, s).state)
  {
    var env := AbstractEnv(Fixed(values));
    if rules != [] {
      var r := rules[0];
      if Concerns(n, r) {
        assert Concerning(n, rules)[1..] == Concerning(n, rules[1..]);
      } else {
        assert Concerning(n, rules) == Concerning(n, rules[1..]);
      }
      if IsLocked(r, locked) {
        NamesDoNotInterfere(n, values, rules[1..], locked, locked', s);
      } else {
        var (s', o) := Exec(env, r, s);
        ExecOfName(n, values, r, s);
        NamesDoNotInterfere(n, values, rules[1..], if o == Done then LockedAfter(r, locked) else locked,
                            if o == Done && Concerns(n, r) then LockedAfter(r, locked') else locked', s');
      }
    }
  }

  lemma {:induction false} ExecOfName(n: string, values: string -> Option<string>, r: Rule, s: seq<Header>)
    requires Alike(r, Fixed(values))
    ensures var env := AbstractEnv(Fixed(values));
            var x, y := Exec(env, r, s), Exec(env, r, OfName(n, s));
            x.1 == y.1 && OfName(n, x.0) == if Concerns(n, r) then y.0 else OfName(n, s)
  {
    hide EditHeaders, OfName, Concerns, SameName;
    var env := AbstractEnv(Fixed(values));
    var v := Value(env, r, s);
    if v.Some? && r.opcode != Pass {
      EditOfName(n, r, v.value, s);
    }
  }

  /** So what is sent under a name depends only on what was there under it, and on the rules on it, in order. */
  lemma {:induction false} ResponseNames(n: string, values: string -> Option<string>, rules: seq<Rule>,
                                         rules': seq<Rule>, st: ResState, st': ResState)
    requires forall r :: r in rules ==> Alike(r, Fixed(values))
    requires forall r :: r in rules' ==> Alike(r, Fixed(values))
    requires Concerning(n, rules) == Concerning(n, rules')
             && OfName(n, Visible(st.entries)) == OfName(n, Visible(st'.entries))
    ensures var env := ResponseEnv(ResponseEval(Fixed(values)));
            var x, y := Run(env, rules, {}, st), Run(env, rules', {}, st');
            x.ok && y.ok ==> OfName(n, Visible(x.state.entries)) == OfName(n, Visible(y.state.entries))
  {
    hide Run, OfName, Visible, Concerning;
    var env := ResponseEnv(ResponseEval(Fixed(values)));
    ResponseRunRefines(Fixed(values), rules, {}, st);
    ResponseRunRefines(Fixed(values), rules', {}, st');
    if Run(env, rules, {}, st).ok && Run(env, rules', {}, st').ok {
      NamesDoNotInterfere(n, values, rules, {}, {}, Visible(st.entries));
      NamesDoNotInterfere(n, values, rules', {}, {}, Visible(st'.entries));
    }
  }

  /** The same of the request headers. */
  lemma {:induction false} RequestNames(n: string, values: string -> Option<string>, rules: seq<Rule>,
                                        rules': seq<Rule>, st: ReqState, st': ReqState)
    requires forall r :: r in rules ==> Alike(r, Fixed(values))
    requires forall r :: r in rules' ==> Alike(r, Fixed(values))
    requires Concerning(n, rules) == Concerning(n, rules')
             && OfName(n, AllHeaders(st.entries)) == OfName(n, AllHeaders(st'.entries))
    ensures var env := RequestEnv(RequestEval(Fixed(values)));
            var x, y := Run(env, rules, {}, st), Run(env, rules', {}, st');
            x.ok && y.ok ==> OfName(n, AllHeaders(x.state.entries)) == OfName(n, AllHeaders(y.state.entries))
  {
    hide Run, OfName, AllHeaders, Concerning;
    var env := RequestEnv(RequestEval(Fixed(values)));
    RequestRunRefines(Fixed(values), rules, {}, st);
    RequestRunRefines(Fixed(values), rules', {}, st');
    if Run(env, rules, {}, st).ok && Run(env, rules', {}, st').ok {
      NamesDoNotInterfere(n, values, rules, {}, {}, AllHeaders(st.entries));
      NamesDoNotInterfere(n, values, rules', {}, {}, AllHeaders(st'.entries));
    }
  }
}
