/** The values derived from Host and Content-Length over whole runs. */
module DerivedRuns {
  import opened Names
  import opened HeaderEdit
  import opened Rules
  import opened RuleEngine
  import opened RequestEdit
  import opened FieldIndex
  import opened RequestState
  import opened RequestAgreement
  import opened RequestFields
  import opened AbstractEdit
  import opened RequestRun
  import opened Isolation
  import HostValidator

  // ---------- rules on other names ----------

  lemma {:induction false} FirstValueIs(b: string, s: seq<Entry>)
    ensures var hs := OfName(b, AllHeaders(s)); FirstValue(b, s) == if hs == [] then None else Some(hs[0].value)
  {
    if s != [] {
      var rest := s[1..];
      assert AllHeaders(s)[1..] == AllHeaders(rest) && Keys(s)[1..] == Keys(rest);
      FirstValueIs(b, rest);
    }
  }

  /** Headers of a name that an edit is not about. */
  lemma {:induction false} NotAbout(b: string, t: Target, v: string, s: seq<Header>)
    requires Lower(b) == b && !t.Covers(b)
    ensures OfName(b, Without(t, s)) == OfName(b, s) && OfName(b, OnlyOne(v, t, s)) == OfName(b, s)
  {
    if s != [] {
      var h, rest := s[0], s[1..];
      var without, only := Without(t, rest), OnlyOne(v, t, rest);
      NotAbout(b, t, v, rest);
      if SameName(h.name, b) {
        SamePrefix(h.name, b, if t.Prefix? then t.prefix else "");
        assert !t.Covers(h.name);
      }
      OfNameCons(b, h, rest);
      OfNameCons(b, h, without);
      OfNameCons(b, h, only);
      OfNameCons(b, h.(value := v), without);
      assert s == [h] + rest;
      hide OfName;
      assert Without(t, s) == if t.Covers(h.name) then without else [h] + without;
      assert OnlyOne(v, t, s) == if t.Covers(h.name) then [h.(value := v)] + without else [h] + only;
    }
  }

  lemma {:induction false} EditElsewhere(b: string, rule: Rule, v: string, s: seq<Header>)
    requires Lower(b) == b && Lower(rule.key) != b
    requires rule.opcode == Append || rule.opcode == Add || !rule.RequestTarget(v).Covers(b)
    ensures OfName(b, EditHeaders(rule, v, rule.RequestTarget(v), s)) == OfName(b, s)
  {
    hide Lower;
    var t := rule.RequestTarget(v);
    OfNameConcat(b, s, [Header(rule.key, v)]);
    OfNameOne(b, Header(rule.key, v));
    if rule.opcode != Append && rule.opcode != Add {
      NotAbout(b, t, v, s);
    }
  }

  lemma {:induction false} WrittenElsewhere(b: string, s: seq<Entry>, f: nat, e: Entry)
    requires f < |s| && e.key == s[f].key && !SameName(e.key, b)
    ensures FirstValue(b, s[f := e]) == FirstValue(b, s)
  {
    KeysUpdate(s, f, e);
  }

  /** A rule on another name that spares this one leaves its first value. */
  lemma {:induction false} ElsewhereKeeps(b: string, rule: Rule, v: string, st: ReqState)
    requires Lower(b) == b && Lower(rule.key) != b && Spares(rule, b) && rule.opcode != Pass
    requires rule.handler != Generic ==> !rule.wildcard && rule.opcode != Append
    ensures FirstValue(b, Meaning(rule, v, st)) == FirstValue(b, st.entries)
  {
    hide Edit, EditHeaders, OfName, FirstValue, Lower, Handle, First;
    var s := st.entries;
    DeletionRefines(rule, v, s);
    NotCovered(b, rule, v);
    EditElsewhere(b, rule, v, AllHeaders(s));
    FirstValueIs(b, s);
    FirstValueIs(b, Edit(rule, v, s));
    var f := First(Exact(rule.key), Keys(s));
    if rule.handler != Generic && rule.handler != Multi && v != "" && rule.opcode != Add && f < |s| {
      FirstIsNamed(rule.key, s);
      WrittenElsewhere(b, s, f, s[f].(hash := rule.hash, value := v));
    }
  }

  lemma {:induction false} FirstIsNamed(key: string, s: seq<Entry>)
    ensures var f := First(Exact(key), Keys(s)); f < |s| ==> SameName(s[f].key, key)
  {
  }

  lemma {:induction false} NotCovered(b: string, rule: Rule, v: string)
    requires Lower(b) == b && Lower(rule.key) != b && Spares(rule, b) && rule.opcode != Pass
    ensures rule.opcode == Append || rule.opcode == Add || !rule.RequestTarget(v).Covers(b)
  {
  }

  /** Only the handlers of Host and Content-Length touch the derived values. */
  lemma {:induction false} DerivedKept(rule: Rule, v: string, st: ReqState)
    ensures rule.handler != Host ==> Handle(rule, v, st).0.server == st.server
    ensures rule.handler != ContentLength ==> Handle(rule, v, st).0.contentLength == st.contentLength
  {
    hide SetBuiltin, Applied, OutId, ParseSize, HostValidator.Normalize, Lower;
    AppliedDerived(rule, v, st);
    forall server, n
      ensures var st' := SetBuiltin(rule, v, st.(server := server, contentLength := n));
              st'.server == server && st'.contentLength == n
    {
      BuiltinDerived(rule, v, st.(server := server, contentLength := n));
    }
    assert st == st.(server := st.server, contentLength := st.contentLength);
  }

  // ---------- whole runs ----------

  /** The names of the two headers, which the two handlers are for, and only they. */
  ghost predicate Named(host: string, length: string, rule: Rule) {
    && (rule.handler == Host <==> Lower(rule.key) == host)
    && (rule.handler == ContentLength <==> Lower(rule.key) == length)
  }

  /** `server` and the length agree with the headers, and all fields agree with the list. */
  ghost predicate InAgreement(host: string, length: string, st: ReqState) {
    && Coherent(st) && host in st.fields && length in st.fields
    && ServerAgrees(host, st) && LengthMatches(length, st)
  }

  /** An executed rule on Host or Content-Length that its handler accepts gets its way. */
  predicate GetsItsWay(rule: Rule, v: string, st: ReqState) {
    && (rule.handler == Host && (v == "" || HostValidator.Normalize(v).Some?) ==> HostEffective(rule, v, st.entries))
    && (rule.handler == ContentLength && (v == "" || ParseSize(v).Some?) ==> LengthEffective(rule, v, st.entries))
  }

  predicate GetsItsWayRun(env: Env<ReqState>, rules: seq<Rule>, locked: set<string>, st: ReqState) {
    if rules == [] then true
    else if IsLocked(rules[0], locked) then GetsItsWayRun(env, rules[1..], locked, st)
    else
      && (Check(env, rules[0], st) == Met && rules[0].opcode != Pass && Value(env, rules[0], st).Some? ==>
            GetsItsWay(rules[0], Value(env, rules[0], st).value, st))
      && var (st', o) := Exec(env, rules[0], st);
         o != Failed ==>
           GetsItsWayRun(env, rules[1..], if o == Done then LockedAfter(rules[0], locked) else locked, st')
  }

  /** All spellings of a name have the same first value. */
  lemma {:induction false} FirstValueSpelling(a: string, b: string, s: seq<Entry>)
    requires SameName(a, b)
    ensures FirstValue(a, s) == FirstValue(b, s)
  {
    FirstIs(Exact(a), Keys(s), First(Exact(b), Keys(s)));
  }

  lemma {:induction false} DerivedStep(host: string, length: string, rule: Rule, v: string, st: ReqState)
    requires InAgreement(host, length, st) && Named(host, length, rule) && GetsItsWay(rule, v, st)
             && rule.opcode != Pass
    requires Admissible(rule, st.fields.Keys) && Defined(rule, v, st) && forall b :: b in st.fields ==> Spares(rule, b)
    ensures var st' := Handle(rule, v, st).0; InAgreement(host, length, st') && st'.fields.Keys == st.fields.Keys
  {
    hide Handle, Coherent, FirstValue, HostEffective, LengthEffective, Lower, Right, HostValidator.Normalize, ParseSize,
      RequestState.Unset, Meaning, Edit, BuiltinEdit;
    HandleFields(rule, v, st);
    HandleAgrees(rule, v, st);
    SparingHarmless(rule, v, st);
    DerivedKept(rule, v, st);
    CoherentRight(host, st);
    CoherentRight(length, st);
    if rule.handler == Host {
      SpelledHost(rule, v, st);
    } else {
      ElsewhereKeeps(host, rule, v, st);
    }
    if rule.handler == ContentLength {
      SpelledLength(rule, v, st);
    } else {
      ElsewhereKeeps(length, rule, v, st);
    }
  }

  lemma {:induction false} SpelledHost(rule: Rule, v: string, st: ReqState)
    requires Right(Lower(rule.key), st) && ServerAgrees(Lower(rule.key), st) && GetsItsWay(rule, v, st)
    requires rule.handler == Host && !rule.wildcard && rule.opcode != Append
    ensures ServerAgrees(Lower(rule.key), Handle(rule, v, st).0)
  {
    hide Handle, Right, FirstValue, HostEffective, HostValidator.Normalize, Lower;
    LowerIdempotent(rule.key);
    FirstValueSpelling(rule.key, Lower(rule.key), Handle(rule, v, st).0.entries);
    HostAgrees(rule, v, st);
  }

  lemma {:induction false} SpelledLength(rule: Rule, v: string, st: ReqState)
    requires Right(Lower(rule.key), st) && LengthMatches(Lower(rule.key), st) && GetsItsWay(rule, v, st)
    requires rule.handler == ContentLength && !rule.wildcard && rule.opcode != Append
    ensures LengthMatches(Lower(rule.key), Handle(rule, v, st).0)
  {
    hide Handle, Right, FirstValue, LengthEffective, ParseSize, Lower;
    LowerIdempotent(rule.key);
    FirstValueSpelling(rule.key, Lower(rule.key), Handle(rule, v, st).0.entries);
    LengthAgrees(rule, v, st);
  }

  lemma {:induction false} CoherentRight(b: string, st: ReqState)
    requires Coherent(st) && b in st.fields
    ensures Right(b, st) && Lower(b) == b
  {
  }

  /** `server` and the length agree with the headers after every run in which the executed rules on Host and
      Content-Length get their way, if no rule can leave a builtin field behind; failing runs included. */
  lemma {:induction false} RunKeepsDerived(host: string, length: string, eval: (string, RequestView) -> Option<string>,
                                           rules: seq<Rule>, locked: set<string>, st: ReqState)
    requires InAgreement(host, length, st)
    requires DefinedRun(RequestEnv(eval), rules, locked, st) && GetsItsWayRun(RequestEnv(eval), rules, locked, st)
    requires forall r :: r in rules ==> Admissible(r, st.fields.Keys) && Named(host, length, r)
    requires forall r, b :: r in rules && b in st.fields ==> Spares(r, b)
    ensures InAgreement(host, length, Run(RequestEnv(eval), rules, locked, st).state)
  {
    hide Handle, InAgreement, Admissible, Spares, Named, Check, Value, IsLocked, Defined, GetsItsWay;
    if rules != [] {
      var rule, env := rules[0], RequestEnv(eval);
      assert rule in rules;
      if IsLocked(rule, locked) {
        RunKeepsDerived(host, length, eval, rules[1..], locked, st);
      } else {
        var (st', o) := Exec(env, rule, st);
        if Check(env, rule, st) == Met && rule.opcode != Pass && Value(env, rule, st).Some? {
          DerivedStep(host, length, rule, Value(env, rule, st).value, st);
        }
        if o != Failed {
          RunKeepsDerived(host, length, eval, rules[1..], if o == Done then LockedAfter(rule, locked) else locked, st');
        }
      }
    }
  }

  // ---------- prefix clears ----------

  /** A rule without a field keeps `server` in agreement exactly if it does not delete a Host that is there. */
  lemma {:induction false} GenericServer(b: string, rule: Rule, v: string, st: ReqState)
    requires Right(b, st) && ServerAgrees(b, st) && Admissible(rule, st.fields.Keys) && rule.handler == Generic
    ensures ServerAgrees(b, Handle(rule, v, st).0) <==> HarmlessTo(b, rule, v, st)
  {
    hide Applied, Edit, EditHeaders, OfName, Lower, FirstValue, FirstOf, Addressed, HostValidator.Normalize, Keys;
    var s, st' := st.entries, Applied(rule, v, st);
    SoundSizes(st);
    AppliedKeeps(rule, v, st);
    AppliedDerived(rule, v, st);
    AppliedOther(b, rule, v, st);
    NullMeansNone(b, s, st.ids);
    NullMeansNone(b, st'.entries, st'.ids);
    if rule.opcode == Append || rule.opcode == Add || !rule.RequestTarget(v).Covers(b) {
      DeletionRefines(rule, v, s);
      EditElsewhere(b, rule, v, AllHeaders(s));
      FirstValueIs(b, s);
      FirstValueIs(b, Edit(rule, v, s));
    } else if FirstValue(b, s).Some? {
      HostValidator.NormalizeIdempotent(FirstValue(b, s).value);
    }
  }

  lemma {:induction false} NullMeansNone(b: string, s: seq<Entry>, ids: seq<nat>)
    requires |s| == |ids|
    ensures |Keys(s)| == |s| && (FirstOf(Exact(b), Keys(s), ids) == None <==> FirstValue(b, s) == None)
  {
  }

  /** Clearing "ho*" deletes Host and leaves `server`. */
  lemma {:induction false} ClearLeavesServer()
    ensures var rule := Rule("ho*", 1, Clear, true, false, None, "", Generic);
            var st := With("Host", "a").(server := "a");
            var st' := Handle(rule, "", st).0;
            && ServerAgrees(Lower("Host"), st) && !ServerAgrees(Lower("Host"), st')
            && st'.entries == [] && st'.server == "a"
  {
    hide Lower, HostValidator.Normalize, FirstValue, Coherent, HasPrefix;
    HostIsCovered();
    var rule, st := Rule("ho*", 1, Clear, true, false, None, "", Generic), With("Host", "a").(server := "a");
    assert rule.Stem() == "ho";
    WithOne("Host", "a");
    LowerIdempotent("Host");
    FirstValueSpelling("Host", Lower("Host"), st.entries);
    Letter('a');
    Cleared(rule.RequestTarget(""), st, "Host");
    NoHeader(Lower("Host"));
  }

  lemma {:induction false} HostIsCovered()
    ensures HasPrefix("Host", "ho")
  {
    assert "Host"[..2] == "Ho" && Lower("Ho") == "ho" == Lower("ho");
  }

  lemma {:induction false} NoHeader(b: string)
    ensures FirstValue(b, []) == None
  {
  }
}
