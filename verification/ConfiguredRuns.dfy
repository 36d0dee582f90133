/** What a directive does when its rule runs: from the words of the directive to the headers that are left. */
module ConfiguredRuns {
  import opened Names
  import opened HeaderEdit
  import opened Rules
  import opened RuleEngine
  import opened RequestState
  import RequestEdit
  import opened ResponseState
  import opened AbstractEdit
  import opened ResponseEdit
  import opened RequestRun
  import opened ResponseRun
  import opened Isolation
  import opened Directives

  /** The headers of a name before and after a rule, which is called `key` in it, by the word for its operation. An
      empty value leaves none; otherwise set leaves one, with the value; rewrite leaves one if there was one; add adds
      one if there was none; append adds one, and pass changes nothing. `hides` says that an empty header is not
      seen. */
  predicate Does(word: string, key: string, v: string, hides: bool, before: seq<Header>, after: seq<Header>) {
    && (SameLetters(word, "set") ==> if v == "" then after == [] else |after| == 1 && after[0].value == v)
    && (SameLetters(word, "clear") ==> after == [])
    && (SameLetters(word, "add") ==> after == if before == [] && v != "" then [Header(key, v)] else before)
    && (SameLetters(word, "append") ==> after == if v == "" && hides then before else before + [Header(key, v)])
    && (SameLetters(word, "rewrite") ==>
          after == if before == [] || v == "" then [] else [Header(before[0].name, v)])
    && (SameLetters(word, "pass") ==> after == before)
  }

  /** The rule of a directive without flag and condition, for an exact name outside the table. */
  lemma {:induction false} PlainRule(ctx: Context, args: seq<string>, rule: Rule)
    requires Configures(ctx, args, rule) && args[2] != "-n" && rule.filter == None
    requires forall i :: 0 <= i < |ctx.table| ==> !SameLetters(args[2], ctx.table[i].0)
    requires args[2] != "" ==> args[2][|args[2]| - 1] != '*'
    ensures rule.key == args[2] && !rule.next && !rule.wildcard && rule.handler == Generic
    ensures rule.hash == ctx.hash(Lower(args[2]))
    ensures rule.opcode != Clear && rule.opcode != Pass ==> |args| == 4 && rule.template == args[3]
    ensures rule.opcode == Clear || rule.opcode == Pass ==> |args| == 3 && rule.template == ""
    ensures IsWordFor(args[1], rule.opcode)
  {
    hide Spells, WellFormed, SameLetters, Lower;
    SpelledByWords(args, rule);
    WellFormedByCode(ctx, rule);
  }

  /** The operations as clients see them. */
  lemma {:induction false} EditDoes(word: string, rule: Rule, v: string, s: seq<Header>)
    requires !rule.wildcard && IsWordFor(word, rule.opcode) && (rule.opcode == Clear ==> v == "") && rule.opcode != Pass
    ensures var s' := EditHeaders(rule, v, Exact(rule.key), s);
            && Does(word, rule.key, v, false, OfName(rule.key, s), OfName(rule.key, s'))
            && forall n :: !SameLetters(n, rule.key) ==> OfName(n, s') == OfName(n, s)
  {
    hide SameLetters, OfName, EditHeaders, SameName;
    EditResult(rule, v, s);
    forall n | !SameLetters(n, rule.key)
      ensures OfName(n, EditHeaders(rule, v, Exact(rule.key), s)) == OfName(n, s)
    {
      NamesByCode(n);
      EditOfName(n, rule, v, s);
    }
  }

  /** Running the rule of such a directive on a request does not fail. If its value comes out as `v`, the headers of its
      name are what the word for the operation says, and those of other names are as before. */
  lemma {:induction false} RequestDirective(ctx: Context, args: seq<string>, rule: Rule,
                                            eval: (string, RequestView) -> Option<string>, st: ReqState, v: string)
    requires Configures(ctx, args, rule) && args[2] != "-n" && rule.filter == None
    requires forall i :: 0 <= i < |ctx.table| ==> !SameLetters(args[2], ctx.table[i].0)
    requires args[2] != "" ==> args[2][|args[2]| - 1] != '*'
    requires if |args| == 3 || args[3] == "" then v == ""
             else
               var view := RequestView(st.entries, st.server, st.contentLength, st.badRequest);
               eval(args[3], view) == Some(v)
    ensures var end := Run(RequestEnv(eval), [rule], {}, st);
            && end.ok
            && Does(args[1], args[2], v, false, OfName(args[2], AllHeaders(st.entries)),
                    OfName(args[2], AllHeaders(end.state.entries)))
            && forall n :: !SameLetters(n, args[2]) ==>
                 OfName(n, AllHeaders(end.state.entries)) == OfName(n, AllHeaders(st.entries))
  {
    hide SameLetters, OfName, EditHeaders, SameName, Configures, AllHeaders, RequestEdit.Edit, Applied, Run;
    PlainRule(ctx, args, rule);
    var env := RequestEnv(eval);
    assert st.View() == RequestView(st.entries, st.server, st.contentLength, st.badRequest);
    assert [rule] + [] == [rule] && {} + {Lower(rule.key)} == {Lower(rule.key)};
    if rule.opcode == Pass {
      PassedRule(env, rule, [], {}, st, "");
      NoRules(env, {Lower(rule.key)}, st);
    } else {
      HandledRule(env, rule, [], {}, st, "", v);
      NoRules(env, {Lower(rule.key)}, env.handle(rule, v, st).0);
      AppliedKeeps(rule, v, st);
      DeletionRefines(rule, v, st.entries);
      EditDoes(args[1], rule, v, AllHeaders(st.entries));
    }
  }

  /** The same of a response, where an appended header with an empty value is not sent. */
  lemma {:induction false} ResponseDirective(ctx: Context, args: seq<string>, rule: Rule,
                                             eval: (string, ResponseView) -> Option<string>, st: ResState, v: string)
    requires Configures(ctx, args, rule) && args[2] != "-n" && rule.filter == None
    requires forall i :: 0 <= i < |ctx.table| ==> !SameLetters(args[2], ctx.table[i].0)
    requires args[2] != "" ==> args[2][|args[2]| - 1] != '*'
    requires ctx.hash(Lower(args[2])) != 0
    requires if |args| == 3 || args[3] == "" then v == ""
             else
               var view := ResponseView(st.entries, st.contentType, st.typeLen, st.charset, st.contentLength);
               eval(args[3], view) == Some(v)
    ensures var end := Run(ResponseEnv(eval), [rule], {}, st);
            && end.ok
            && Does(args[1], args[2], v, true, OfName(args[2], Visible(st.entries)),
                    OfName(args[2], Visible(end.state.entries)))
            && forall n :: !SameLetters(n, args[2]) ==>
                 OfName(n, Visible(end.state.entries)) == OfName(n, Visible(st.entries))
  {
    hide SameLetters, OfName, EditHeaders, SameName, Configures, Visible, EditResponse, Run, Does;
    PlainRule(ctx, args, rule);
    var env := ResponseEnv(eval);
    assert st.View() == ResponseView(st.entries, st.contentType, st.typeLen, st.charset, st.contentLength);
    assert [rule] + [] == [rule] && {} + {Lower(rule.key)} == {Lower(rule.key)};
    if rule.opcode == Pass {
      PassedRule(env, rule, [], {}, st, "");
      NoRules(env, {Lower(rule.key)}, st);
      SentDoes(args[1], rule, v, st.entries);
    } else {
      HandledRule(env, rule, [], {}, st, "", v);
      NoRules(env, {Lower(rule.key)}, env.handle(rule, v, st).0);
      SentDoes(args[1], rule, v, st.entries);
    }
  }

  lemma {:induction false} SentDoes(word: string, rule: Rule, v: string, s: seq<Entry>)
    requires !rule.wildcard && rule.hash != 0 && IsWordFor(word, rule.opcode)
    requires rule.opcode == Clear || rule.opcode == Pass ==> v == ""
    ensures var s' := if rule.opcode == Pass then s else EditResponse(rule, v, false, s);
            && Does(word, rule.key, v, true, OfName(rule.key, Visible(s)), OfName(rule.key, Visible(s')))
            && forall n :: !SameLetters(n, rule.key) ==> OfName(n, Visible(s')) == OfName(n, Visible(s))
  {
    hide SameLetters, OfName, EditHeaders, SameName, Visible;
    if rule.opcode == Append && v == "" {
      VisibleConcat(s, [NewEntry(rule, v)]);
      VisibleOne(rule, v);
      assert Visible(s) + [] == Visible(s);
    } else if rule.opcode != Pass {
      hide EditResponse;
      MarkingRefines(rule, v, false, s);
      EditDoes(word, rule, v, Visible(s));
    }
  }
}
