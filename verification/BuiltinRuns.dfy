/** Whole runs that include rules on builtin names, seen as runs of the abstract edit. */
module BuiltinRuns {
  import opened Names
  import opened HeaderEdit
  import opened Rules
  import opened RuleEngine
  import opened RequestEdit
  import opened RequestState
  import opened RequestAgreement
  import RequestFields
  import opened AbstractEdit
  import opened RequestRun
  import opened ResponseEdit
  import opened ResponseState
  import opened ResponseRun
  import opened ResponseFields
  import opened Refinement
  import opened Isolation
  import ContentTypes
  import HostValidator

  // ---------- requests ----------

  /** The handler of the rule accepts the value. */
  predicate Takes(rule: Rule, v: string) {
    match rule.handler
    case Host => v == "" || HostValidator.Normalize(v).Some?
    case ContentLength => v == "" || ParseSize(v).Some?
    case _ => true
  }

  /** Rules run on names and values, builtin names included. */
  function BuiltinEnv(eval: (string, seq<Header>) -> Option<string>): Env<seq<Header>> {
    Env(eval, (rule: Rule, v: string, s: seq<Header>) =>
          if Takes(rule, v) then (EditHeaders(rule, v, rule.RequestTarget(v), s), true) else (s, false))
  }

  /** All builtin fields agree with the list, which has at most one header of each of their names. */
  ghost predicate Clean(st: ReqState) {
    && Coherent(st) && !st.badRequest
    && forall b :: b in st.fields ==> |OfName(b, AllHeaders(st.entries))| <= 1
  }

  lemma {:induction false} OfNameAtMost(n: string, t: Target, v: string, s: seq<Header>)
    ensures |OfName(n, Without(t, s))| <= |OfName(n, s)|
    ensures |OfName(n, OnlyOne(v, t, s))| <= |OfName(n, s)|
  {
    if s != [] {
      OfNameAtMost(n, t, v, s[1..]);
      var h, without, only := s[0], Without(t, s[1..]), OnlyOne(v, t, s[1..]);
      OfNameCons(n, h, s[1..]);
      OfNameCons(n, h, without);
      OfNameCons(n, h, only);
      OfNameCons(n, h.(value := v), without);
      assert s == [h] + s[1..];
      hide OfName;
      assert Without(t, s) == if t.Covers(h.name) then without else [h] + without;
      assert OnlyOne(v, t, s) == if t.Covers(h.name) then [h.(value := v)] + without else [h] + only;
    } else {
      assert Without(t, s) == [] && OnlyOne(v, t, s) == [];
    }
  }

  lemma {:induction false} AbsentName(n: string, key: string, s: seq<Header>)
    requires SameName(n, key) && !Present(Exact(key), s)
    ensures OfName(n, s) == []
  {
    if s != [] {
      AbsentName(n, key, s[1..]);
    }
  }

  /** The edit by a rule leaves at most one header of a name that had at most one, unless it appends one or creates one
      although another is there. */
  lemma {:induction false} StaysSingle(n: string, rule: Rule, v: string, s: seq<Header>)
    requires Lower(n) == n && |OfName(n, s)| <= 1
    requires Lower(rule.key) == n ==> !rule.wildcard && rule.opcode != Append
    ensures |OfName(n, EditHeaders(rule, v, rule.RequestTarget(v), s))| <= 1
  {
    hide Lower;
    var t := rule.RequestTarget(v);
    OfNameAtMost(n, t, v, s);
    OfNameConcat(n, s, [Header(rule.key, v)]);
    OfNameOne(n, Header(rule.key, v));
    if Lower(rule.key) == n && !Present(t, s) {
      AbsentName(n, rule.key, s);
    }
  }

  lemma {:induction false} NoneOfName(n: string, s: seq<Entry>)
    requires OfName(n, AllHeaders(s)) == []
    ensures forall j :: 0 <= j < |s| ==> !SameName(s[j].key, n)
  {
    if s != [] {
      assert AllHeaders(s)[1..] == AllHeaders(s[1..]);
      NoneOfName(n, s[1..]);
      assert forall j :: 0 < j < |s| ==> s[j] == s[1..][j - 1];
    }
  }

  lemma {:induction false} SingleOfName(n: string, key: string, s: seq<Entry>)
    requires SameName(n, key) && |OfName(n, AllHeaders(s))| <= 1
    ensures RequestFields.Single(Exact(key), s)
  {
    if s != [] {
      var rest := s[1..];
      assert AllHeaders(s)[1..] == AllHeaders(rest) && Keys(s)[1..] == Keys(rest);
      if SameName(s[0].key, n) {
        NoneOfName(n, rest);
      } else {
        SingleOfName(n, key, rest);
      }
      assert forall j :: 0 < j < |s| ==> s[j] == rest[j - 1];
    }
  }

  /** One rule on a clean request that spares the fields. */
  lemma {:induction false} RequestStep(rule: Rule, v: string, st: ReqState)
    requires Clean(st) && Admissible(rule, st.fields.Keys) && Defined(rule, v, st) && rule.opcode != Pass
    requires forall b :: b in st.fields ==> Spares(rule, b)
    ensures var (st', ok) := Handle(rule, v, st);
            && Clean(st') && st'.fields.Keys == st.fields.Keys
            && ok == Takes(rule, v)
            && AllHeaders(st'.entries) ==
                 if ok then EditHeaders(rule, v, rule.RequestTarget(v), AllHeaders(st.entries))
                     else AllHeaders(st.entries)
  {
    hide Handle, Coherent, Edit, BuiltinEdit, EditHeaders, OfName, Lower, RequestState.Unset, RequestFields.Single;
    var st', ok := Handle(rule, v, st).0, Handle(rule, v, st).1;
    HandleFields(rule, v, st);
    HandleAgrees(rule, v, st);
    SparingHarmless(rule, v, st);
    Derived(rule, v, st);
    DeletionRefines(rule, v, st.entries);
    if rule.handler != Generic {
      SingleOfName(Lower(rule.key), rule.key, st.entries) by {
        LowerIdempotent(rule.key);
      }
      RequestFields.BuiltinRefines(rule, v, st.entries);
    }
    forall b | b in st.fields ensures |OfName(b, AllHeaders(st'.entries))| <= 1 {
      NamesLower(st, b);
      StaysSingle(b, rule, v, AllHeaders(st.entries));
    }
  }

  lemma {:induction false} NamesLower(st: ReqState, b: string)
    requires Coherent(st) && b in st.fields
    ensures Lower(b) == b
  {
  }

  /** The handler succeeds exactly on values that it takes, and does not change the status. */
  lemma {:induction false} Derived(rule: Rule, v: string, st: ReqState)
    ensures var (st', ok) := Handle(rule, v, st); ok == Takes(rule, v) && st'.badRequest == st.badRequest
  {
    hide SetBuiltin, Applied, OutId, ParseSize, HostValidator.Normalize, Lower;
    AppliedDerived(rule, v, st);
    forall server, n ensures SetBuiltin(rule, v, st.(server := server, contentLength := n)).badRequest
        == st.badRequest {
      RequestFields.BuiltinDerived(rule, v, st.(server := server, contentLength := n));
    }
    assert st == st.(server := st.server, contentLength := st.contentLength);
  }

  /** A whole run on a clean request, with any rules that spare its fields, is a run of the abstract edit, and leaves
      the request clean. */
  lemma {:induction false} RequestRunWithBuiltins(eval: (string, seq<Header>) -> Option<string>, rules: seq<Rule>,
                                                  locked: set<string>, st: ReqState)
    requires Clean(st) && DefinedRun(RequestEnv(RequestEval(eval)), rules, locked, st)
    requires forall r :: r in rules ==> Admissible(r, st.fields.Keys)
    requires forall r, b :: r in rules && b in st.fields ==> Spares(r, b)
    ensures var x, y := Run(RequestEnv(RequestEval(eval)), rules, locked, st),
            Run(BuiltinEnv(eval), rules, locked, AllHeaders(st.entries));
            Clean(x.state) && AllHeaders(x.state.entries) == y.state && x.ok == y.ok && x.trace == y.trace
  {
    hide Handle, Clean, Admissible, Spares, IsLocked, Defined, EditHeaders, Takes;
    if rules != [] {
      var rule, a, b := rules[0], RequestEnv(RequestEval(eval)), BuiltinEnv(eval);
      var s := AllHeaders(st.entries);
      assert rule in rules;
      if IsLocked(rule, locked) {
        RequestRunWithBuiltins(eval, rules[1..], locked, st);
      } else {
        assert st.View().entries == st.entries;
        assert forall e: string :: a.eval(e, st) == RequestEval(eval)(e, st.View()) == eval(e, s);
        assert Check(a, rule, st) == Check(b, rule, s) && Value(a, rule, st) == Value(b, rule, s);
        if Check(a, rule, st) == Met && rule.opcode != Pass && Value(a, rule, st).Some? {
          RequestStep(rule, Value(a, rule, st).value, st);
        }
        var (st', o) := Exec(a, rule, st);
        assert Exec(b, rule, s) == (AllHeaders(st'.entries), o);
        if o != Failed {
          RequestRunWithBuiltins(eval, rules[1..], if o == Done then LockedAfter(rule, locked) else locked, st');
        }
      }
    }
  }

  // ---------- responses ----------

  /** A rule whose effect under a name can be sent: it has a hash, a wildcard clears, what is appended is never empty,
      and it is not the Content-Type rule of that name. */
  predicate Sendable(b: string, rule: Rule, values: string -> Option<string>) {
    && rule.hash != 0
    && (rule.wildcard ==> (rule.opcode == Clear || rule.opcode == Pass) && rule.template == "")
    && (rule.opcode == Append ==> rule.template != "" && values(rule.template) != Some(""))
    && (rule.handler == ContentType ==> Lower(rule.key) != b)
  }

  /** A rule on a builtin name gets its way: it neither adds to nor rewrites a cleared header, and on Cache-Control its
      operation, which is ignored, makes no difference. */
  predicate Effective(b: string, rule: Rule, v: string, st: ResState) {
    Lower(rule.key) == b ==>
      && (b in st.fields ==> !MeetsCleared(rule, v, st))
      && (b in st.chains ==> ChainEffective(rule, v, Values(OfName(b, Visible(st.entries)))))
  }

  /** A header changes that has the name neither before nor after. */
  lemma {:induction false} OthersVisible(b: string, s: seq<Entry>, i: nat, e: Entry)
    requires Lower(b) == b && i < |s| && !Live(b, s[i]) && !Live(b, e)
    ensures OfName(b, Visible(s[i := e])) == OfName(b, Visible(s))
  {
    var rest := s[1..];
    assert s == [s[0]] + rest;
    VisibleCons(b, s[0], rest);
    if i == 0 {
      assert s[i := e] == [e] + rest;
      VisibleCons(b, e, rest);
    } else {
      assert s[i := e] == [s[0]] + rest[i - 1 := e];
      VisibleCons(b, s[0], rest[i - 1 := e]);
      OthersVisible(b, rest, i - 1, e);
    }
  }

  lemma {:induction false} OthersMarked(b: string, s: seq<Entry>, positions: seq<nat>)
    requires Lower(b) == b && forall i :: i in positions ==> i < |s| && Lower(s[i].key) != b
    ensures OfName(b, Visible(Marked(s, positions))) == OfName(b, Visible(s))
    decreases |positions|
  {
    hide Lower, OfName, Visible;
    if positions != [] {
      var i := positions[0];
      assert i in positions && forall j :: j in positions[1..] ==> j in positions;
      var e := s[i].(hash := 0, value := "");
      OthersVisible(b, s, i, e);
      OthersMarked(b, s[i := e], positions[1..]);
    }
  }

  /** What is sent under a name after an edit of another one, or by a pattern. */
  lemma {:induction false} EditSends(b: string, rule: Rule, v: string, noCreate: bool, s: seq<Entry>)
    requires rule.hash != 0 && !(rule.opcode == Append && v == "")
             && (rule.wildcard ==> rule.opcode == Clear && v == "")
    ensures OfName(b, Visible(EditResponse(rule, v, noCreate, s))) ==
              if Concerns(b, rule) then EditHeaders(rule, v, rule.ResponseTarget(), OfName(b, Visible(s)))
              else OfName(b, Visible(s))
  {
    MarkingRefines(rule, v, noCreate, s);
    EditOfName(b, rule, v, Visible(s));
  }

  /** A rule on a builtin name leaves what is sent under another one. */
  lemma {:induction false} FieldSendsOther(b: string, rule: Rule, v: string, st: ResState)
    requires Lower(b) == b && IndexedOn({b}, st) && Lower(rule.key) in st.fields && Lower(rule.key) != b
    requires rule.hash != 0 && !rule.wildcard && rule.opcode != Append
    ensures OfName(b, Visible(SetField(rule, v, st).entries)) == OfName(b, Visible(st.entries))
  {
    hide Lower, OfName, Visible, EditResponse, Reported;
    var name, s := Lower(rule.key), st.entries;
    var f := st.fields[name];
    if f == None {
      EditSends(b, rule, v, false, s);
    } else if f.value < |s| {
      assert name !in {b} && Lower(s[f.value].key) !in {b};
      OthersVisible(b, s, f.value, Revised(rule, v, s[f.value]));
    }
  }

  lemma {:induction false} ChainSendsOther(b: string, rule: Rule, v: string, st: ResState)
    requires Lower(b) == b && IndexedOn({b}, st) && Lower(rule.key) in st.chains && Lower(rule.key) != b
    requires SameName(rule.key, CACHE_CONTROL)
    ensures OfName(b, Visible(SetChain(rule, v, st).entries)) == OfName(b, Visible(st.entries))
  {
    hide Lower, OfName, Visible, Marked;
    var name, s := Lower(rule.key), st.entries;
    var c := st.chains[name];
    assert name !in {b} && forall i :: i in c ==> i < |s| && Lower(s[i].key) !in {b};
    if c != [] {
      assert c[0] in c && forall j :: j in c[1..] ==> j in c;
      OthersMarked(b, s, c[1..]);
      MarkedAt(s, c[1..], c[0]);
      var m := Marked(s, c[1..]);
      assert |m| == |s| by { MarkedLength(s, c[1..]); }
      OthersVisible(b, m, c[0], m[c[0]].(hash := if v == "" then 0 else rule.hash, value := v));
    } else if v != "" {
      var e := Entry(rule.hash, CACHE_CONTROL, v, "");
      VisibleConcat(s, [e]);
      OfNameConcat(b, Visible(s), Visible([e]));
      OneOther(b, e);
    }
  }

  lemma {:induction false} MarkedLength(s: seq<Entry>, positions: seq<nat>)
    ensures |Marked(s, positions)| == |s|
  {
  }

  lemma {:induction false} OneOther(b: string, e: Entry)
    requires Lower(b) == b && Lower(e.key) != b
    ensures OfName(b, Visible([e])) == []
  {
  }

  /** The values that an edit leaves of headers of one name depend only on their values. */
  lemma {:induction false} ValuesOfEdit(rule: Rule, v: string, t: Target, x: seq<Header>, y: seq<Header>)
    requires Values(x) == Values(y)
    requires (forall i :: 0 <= i < |x| ==> t.Covers(x[i].name)) && (forall i :: 0 <= i < |y| ==> t.Covers(y[i].name))
    ensures Values(EditHeaders(rule, v, t, x)) == Values(EditHeaders(rule, v, t, y))
  {
    ValuesSize(x);
    ValuesSize(y);
    WithoutAll(t, x);
    WithoutAll(t, y);
    ValuesConcat(x, [Header(rule.key, v)]);
    ValuesConcat(y, [Header(rule.key, v)]);
    if x != [] {
      WithoutAll(t, x[1..]);
      WithoutAll(t, y[1..]);
      assert t.Covers(x[0].name) && t.Covers(y[0].name);
    }
  }

  lemma {:induction false} ValuesSize(s: seq<Header>)
    ensures |Values(s)| == |s|
  {
    if s != [] {
      ValuesSize(s[1..]);
    }
  }

  lemma {:induction false} ValuesConcat(a: seq<Header>, b: seq<Header>)
    ensures Values(a + b) == Values(a) + Values(b)
  {
    if a == [] {
      assert a + b == b;
    } else {
      assert (a + b)[1..] == a[1..] + b;
      ValuesConcat(a[1..], b);
    }
  }

  /** What the rule's handler sends under a name. */
  lemma {:induction false} StepSends(b: string, rule: Rule, v: string, values: string -> Option<string>, st: ResState)
    requires Lower(b) == b && IndexedOn({b}, st) && Suits(rule, st.fields.Keys, st.chains.Keys)
             && Sendable(b, rule, values)
    requires rule.opcode != Pass && (rule.wildcard ==> v == "") && !(rule.opcode == Append && v == "")
    requires Effective(b, rule, v, st)
    ensures var (st', ok) := HandleResponse(rule, v, st);
            && ok == Takes(rule, v)
            && var x := OfName(b, Visible(st.entries));
               Values(OfName(b, Visible(st'.entries))) ==
                 Values(if ok && Concerns(b, rule) then EditHeaders(rule, v, rule.ResponseTarget(), x) else x)
  {
    hide OfName, Visible, EditResponse, EditHeaders, Values, SetField, SetChain, ParseSize, Lower,
        ContentTypes.Introducer, ContentTypes.CharsetOf,
      MeetsCleared, ChainEffective;
    LowerIdempotent(rule.key);
    if rule.handler == Generic {
      EditSends(b, rule, v, false, st.entries);
    } else if rule.handler == ContentType {
      EditSends(b, rule, "", true, st.entries);
    } else if rule.handler == Multi {
      if Lower(rule.key) == b {
        assert Chained(b, st.chains[b], st.entries);
        ChainRefines(rule, v, st);
      } else {
        ChainSendsOther(b, rule, v, st);
      }
    } else if Takes(rule, v) {
      FieldSends(b, rule, v, st);
    }
  }

  /** Whatever the length is. */
  lemma {:induction false} FieldSends(b: string, rule: Rule, v: string, st: ResState)
    requires Lower(b) == b && IndexedOn({b}, st) && Lower(rule.key) in st.fields
    requires rule.hash != 0 && !rule.wildcard && rule.opcode != Append
    requires Lower(rule.key) == b ==> !MeetsCleared(rule, v, st)
    ensures var x := OfName(b, Visible(st.entries));
            forall n ::
              Values(OfName(b, Visible(SetField(rule, v, st.(contentLength := n)).entries))) ==
                Values(if Lower(rule.key) == b then EditHeaders(rule, v, Exact(rule.key), x) else x)
    ensures SetField(rule, v, st) == SetField(rule, v, st.(contentLength := st.contentLength))
  {
    hide OfName, Visible, EditResponse, EditHeaders, Values, SetField, Lower;
    assert st == st.(contentLength := st.contentLength);
    forall n
      ensures var x := OfName(b, Visible(st.entries));
              Values(OfName(b, Visible(SetField(rule, v, st.(contentLength := n)).entries))) ==
                Values(if Lower(rule.key) == b then EditHeaders(rule, v, Exact(rule.key), x) else x)
    {
      var st' := st.(contentLength := n);
      SameIndex({b}, st, st');
      if Lower(rule.key) == b {
        assert Points(b, st'.fields[b], st'.entries);
        BuiltinRefines(rule, v, st');
      } else {
        FieldSendsOther(b, rule, v, st');
      }
    }
  }

  /** The edit of any headers with the same values under the name. */
  lemma {:induction false} AbstractStep(b: string, rule: Rule, v: string, x: seq<Header>, hs: seq<Header>)
    requires Lower(b) == b && (rule.wildcard ==> rule.opcode == Clear && v == "")
    requires Values(OfName(b, x)) == Values(OfName(b, hs))
    ensures Values(OfName(b, EditHeaders(rule, v, rule.ResponseTarget(), hs))) ==
              if Concerns(b, rule) then Values(EditHeaders(rule, v, rule.ResponseTarget(), OfName(b, x)))
              else Values(OfName(b, x))
  {
    hide OfName, Values, EditHeaders;
    EditOfName(b, rule, v, hs);
    if Concerns(b, rule) {
      AllCovered(b, rule, x);
      AllCovered(b, rule, hs);
      ValuesOfEdit(rule, v, rule.ResponseTarget(), OfName(b, x), OfName(b, hs));
    }
  }

  lemma {:induction false} AllCovered(b: string, rule: Rule, s: seq<Header>)
    requires Concerns(b, rule)
    ensures forall i :: 0 <= i < |OfName(b, s)| ==> rule.ResponseTarget().Covers(OfName(b, s)[i].name)
  {
    AllOfName(b, s);
    forall i | 0 <= i < |OfName(b, s)| ensures rule.ResponseTarget().Covers(OfName(b, s)[i].name) {
      CoversSpelling(rule, OfName(b, s)[i].name, b);
    }
  }

  /** Every executed rule on the name gets its way. */
  predicate EffectiveRun(b: string, env: Env<ResState>, rules: seq<Rule>, locked: set<string>, st: ResState) {
    if rules == [] then true
    else if IsLocked(rules[0], locked) then EffectiveRun(b, env, rules[1..], locked, st)
    else
      && (Check(env, rules[0], st) == Met && rules[0].opcode != Pass && Value(env, rules[0], st).Some? ==>
            Effective(b, rules[0], Value(env, rules[0], st).value, st))
      && var (st', o) := Exec(env, rules[0], st);
         o != Failed ==>
           EffectiveRun(b, env, rules[1..], if o == Done then LockedAfter(rules[0], locked) else locked, st')
  }

  /** One executed rule, on a response and on any headers with the same values under the name. */
  lemma {:induction false} ResponseStep(b: string, rule: Rule, v: string, values: string -> Option<string>,
                                        st: ResState, hs: seq<Header>)
    requires Lower(b) == b && IndexedOn({b}, st) && Suits(rule, st.fields.Keys, st.chains.Keys)
             && Sendable(b, rule, values)
    requires rule.opcode != Pass && (rule.template == "" ==> v == "")
    requires rule.template != "" ==> values(rule.template) == Some(v)
    requires Effective(b, rule, v, st) && Values(OfName(b, Visible(st.entries))) == Values(OfName(b, hs))
    ensures var x, y := HandleResponse(rule, v, st), BuiltinEnv(Fixed(values)).handle(rule, v, hs);
            && x.1 == y.1 && Values(OfName(b, Visible(x.0.entries))) == Values(OfName(b, y.0))
            && IndexedOn({b}, x.0) && x.0.fields.Keys == st.fields.Keys && x.0.chains.Keys == st.chains.Keys
  {
    hide OfName, Visible, EditHeaders, Values, Lower, IndexedOn, HandleResponse, Effective, Takes;
    StepSends(b, rule, v, values, st);
    AbstractStep(b, rule, v, Visible(st.entries), hs);
    HandleKeepsIndexed({b}, rule, v, st);
    assert rule.RequestTarget(v) == rule.ResponseTarget();
  }

  /** Whatever rules run, builtin ones included, as long as those on a name get their way: the values that are sent
      under the name are those of the abstract run, and the runs stop at the same rule, if at any. */
  lemma {:induction false} ResponseRunWithBuiltins(b: string, values: string -> Option<string>, rules: seq<Rule>,
                                                   locked: set<string>, st: ResState, hs: seq<Header>)
    requires Lower(b) == b && IndexedOn({b}, st)
    requires forall r :: r in rules ==> Suits(r, st.fields.Keys, st.chains.Keys) && Sendable(b, r, values)
    requires EffectiveRun(b, ResponseEnv(ResponseEval(Fixed(values))), rules, locked, st)
    requires Values(OfName(b, Visible(st.entries))) == Values(OfName(b, hs))
    ensures var x := Run(ResponseEnv(ResponseEval(Fixed(values))), rules, locked, st);
            var y := Run(BuiltinEnv(Fixed(values)), rules, locked, hs);
            Values(OfName(b, Visible(x.state.entries))) == Values(OfName(b, y.state)) && x.ok == y.ok
                && x.trace == y.trace
  {
    hide HandleResponse, IndexedOn, Suits, Sendable, IsLocked, Effective, EditHeaders, Takes, OfName, Visible, Values,
        Lower;
    if rules != [] {
      var rule, c, d := rules[0], ResponseEnv(ResponseEval(Fixed(values))), BuiltinEnv(Fixed(values));
      assert rule in rules;
      if IsLocked(rule, locked) {
        ResponseRunWithBuiltins(b, values, rules[1..], locked, st, hs);
      } else {
        assert forall e: string :: c.eval(e, st) == values(e) && d.eval(e, hs) == values(e);
        assert Check(c, rule, st) == Check(d, rule, hs) && Value(c, rule, st) == Value(d, rule, hs);
        if Check(c, rule, st) == Met && rule.opcode != Pass && Value(c, rule, st).Some? {
          ResponseStep(b, rule, Value(c, rule, st).value, values, st, hs);
        }
        var (st', o) := Exec(c, rule, st);
        var (hs', o') := Exec(d, rule, hs);
        assert o' == o;
        if o != Failed {
          ResponseRunWithBuiltins(b, values, rules[1..], if o == Done then LockedAfter(rule, locked)
              else locked, st', hs');
        }
      }
    }
  }
}
