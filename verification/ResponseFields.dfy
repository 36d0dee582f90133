/** The builtin fields of a response over whole runs, and what a client sees under a builtin name. */
module ResponseFields {
  import opened Names
  import opened HeaderEdit
  import opened Rules
  import opened RuleEngine
  import opened RequestState
  import opened AbstractEdit
  import opened ResponseEdit
  import opened ContentTypes
  import opened ResponseState
  import opened ResponseRun
  import opened Isolation

  /** Whatever rules run, with whatever conditions and values, the fields of the names in `good` stay right. */
  lemma {:induction false} RunKeepsIndexed(good: set<string>, eval: (string, ResponseView) -> Option<string>,
                                           rules: seq<Rule>, locked: set<string>, st: ResState)
    requires IndexedOn(good, st) && forall r :: r in rules ==> Suits(r, st.fields.Keys, st.chains.Keys)
    ensures var st' := Run(ResponseEnv(eval), rules, locked, st).state;
            IndexedOn(good, st') && st'.fields.Keys == st.fields.Keys && st'.chains.Keys == st.chains.Keys
  {
    hide IndexedOn, HandleResponse, Suits, Check, Value, IsLocked;
    if rules != [] {
      var rule, env := rules[0], ResponseEnv(eval);
      if IsLocked(rule, locked) {
        RunKeepsIndexed(good, eval, rules[1..], locked, st);
      } else {
        var (st', o) := Exec(env, rule, st);
        if Value(env, rule, st).Some? {
          HandleKeepsIndexed(good, rule, Value(env, rule, st).value, st);
        }
        if o != Failed {
          RunKeepsIndexed(good, eval, rules[1..], if o == Done then LockedAfter(rule, locked) else locked, st');
        }
      }
    }
  }

  // ---------- what is sent ----------

  function Values(s: seq<Header>): seq<string> {
    if s == [] then [] else [s[0].value] + Values(s[1..])
  }

  /** At most one header of a builtin name is ever visible: the one of its field, unless that is dead. */
  lemma {:induction false} OneVisible(b: string, f: Option<nat>, s: seq<Entry>)
    requires Points(b, f, s) && Lower(b) == b
    ensures OfName(b, Visible(s)) ==
              if f == None || s[f.value].hash == 0 then [] else [Header(s[f.value].key, s[f.value].value)]
    decreases s
  {
    if s != [] {
      var rest := s[1..];
      VisibleCons(b, s[0], rest);
      assert s == [s[0]] + rest;
      var f' := if f == None || f.value == 0 then None else Some(f.value - 1);
      forall j: nat | j < |rest| && Live(b, rest[j]) ensures f' == Some(j) {
        assert rest[j] == s[j + 1];
      }
      OneVisible(b, f', rest);
      hide Visible, OfName;
      assert f != Some(0) ==> !Live(b, s[0]);
    }
  }

  lemma {:induction false} VisibleCons(b: string, e: Entry, s: seq<Entry>)
    requires Lower(b) == b
    ensures OfName(b, Visible([e] + s)) == (if Live(b, e) then [Header(e.key, e.value)] else []) + OfName(b, Visible(s))
  {
    assert ([e] + s)[1..] == s;
    if e.hash != 0 {
      var h := Header(e.key, e.value);
      assert Visible([e] + s) == [h] + Visible(s);
      assert ([h] + Visible(s))[1..] == Visible(s);
    } else {
      assert Visible([e] + s) == Visible(s);
    }
  }

  /** The field of the rule's name has been cleared, and the rule is one that must look whether the header is there. */
  predicate MeetsCleared(rule: Rule, v: string, st: ResState) {
    var f := st.Field(Lower(rule.key));
    f.Some? && f.value < |st.entries| && st.entries[f.value].hash == 0 && v != ""
        && (rule.opcode == Add || rule.opcode == Rewrite)
  }

  /** A rule on a builtin name whose field is right gives the client the values of that name that the edit says,
      unless it adds to or rewrites a header that has been cleared: then an add adds nothing and a rewrite brings the
      header back. */
  lemma {:induction false} BuiltinRefines(rule: Rule, v: string, st: ResState)
    requires var b := Lower(rule.key); b in st.fields && Points(b, st.fields[b], st.entries)
    requires !rule.wildcard && rule.opcode != Append && rule.hash != 0
    ensures var b := Lower(rule.key);
            Values(OfName(b, Visible(SetField(rule, v, st).entries)))
              == Values(EditHeaders(rule, v, Exact(rule.key), OfName(b, Visible(st.entries))))
            <==> !MeetsCleared(rule, v, st)
  {
    hide EditResponse, Reported, Visible, OfName;
    var b, s := Lower(rule.key), st.entries;
    var f := st.fields[b];
    LowerIdempotent(rule.key);
    OneVisible(b, f, s);
    if f == None && rule.opcode != Rewrite {
      CreatedPoints(rule, v, b, s);
      OneVisible(b, Some(|s|), s + [NewEntry(rule, v)]);
    } else if f.Some? && rule.opcode != Add {
      RevisedPoints(rule, v, s, f.value);
      OneVisible(b, f, s[f.value := Revised(rule, v, s[f.value])]);
    }
  }

  /** A rule on Cache-Control gets its way although its operation is ignored: an add meets no value, or just its own,
      and a rewrite with a value meets one. */
  predicate ChainEffective(rule: Rule, v: string, before: seq<string>) {
    && (rule.opcode == Add && before != [] ==> v != "" && before == [v])
    && (rule.opcode == Rewrite && before == [] ==> v == "")
  }

  /** Whatever its operation, a rule on Cache-Control leaves exactly its value, or none if that is empty; so it does
      what the edit says exactly under that condition. */
  lemma {:induction false} ChainRefines(rule: Rule, v: string, st: ResState)
    requires var b := Lower(rule.key); b in st.chains && Chained(b, st.chains[b], st.entries)
    requires SameName(rule.key, CACHE_CONTROL) && rule.opcode != Append && rule.hash != 0
    ensures var b := Lower(rule.key);
            var before, after := OfName(b, Visible(st.entries)), OfName(b, Visible(SetChain(rule, v, st).entries));
            && Values(after) == (if v == "" then [] else [v])
            && (Values(after) == Values(EditHeaders(rule, v, Exact(rule.key), before))
                <==> ChainEffective(rule, v, Values(before)))
  {
    hide Visible, OfName, EditHeaders, Marked, Lower;
    var b, s := Lower(rule.key), st.entries;
    var c := st.chains[b];
    LowerIdempotent(rule.key);
    if c != [] {
      ChainKeeps(b, c, s, if v == "" then 0 else rule.hash, v);
      InRange(b, c, s);
      OneVisible(b, Some(c[0]), SetChain(rule, v, st).entries);
    } else {
      NoneLive(b, s);
      OneVisible(b, None, s);
      if v != "" {
        StartsChain({b}, b, s, Entry(rule.hash, CACHE_CONTROL, v, ""), c);
        OneVisible(b, Some(|s|), SetChain(rule, v, st).entries);
      }
    }
    ValuesAfter(rule, v, OfName(b, Visible(s)), b, Visible(s));
  }

  lemma {:induction false} InRange(b: string, c: seq<nat>, s: seq<Entry>)
    requires Chained(b, c, s) && c != []
    ensures c[0] < |s| == |Marked(s, c[1..])|
  {
  }

  lemma {:induction false} NoneLive(b: string, s: seq<Entry>)
    requires Chained(b, [], s)
    ensures Points(b, None, s)
  {
  }

  /** When the edit of the headers of a name leaves exactly one value, or none. */
  lemma {:induction false} ValuesAfter(rule: Rule, v: string, before: seq<Header>, b: string, s: seq<Header>)
    requires before == OfName(b, s) && b == Lower(rule.key) && Lower(b) == b && !rule.opcode.Append?
    ensures (if v == "" then [] else [v]) == Values(EditHeaders(rule, v, Exact(rule.key), before))
            <==> ChainEffective(rule, v, Values(before))
  {
    var t := Exact(rule.key);
    AllOfName(b, s);
    WithoutAll(t, before);
    if before != [] {
      WithoutAll(t, before[1..]);
      assert t.Covers(before[0].name);
      assert Values([before[0].(value := v)]) == [v];
    }
    assert Values([Header(rule.key, v)]) == [v];
  }

  /** A rule on a builtin name renames a header exactly if it writes a value through a field that holds a header of
      another name. */
  lemma {:induction false} RenamesOther(rule: Rule, v: string, st: ResState)
    requires Lower(rule.key) in st.fields
    ensures var f, s, s' := st.fields[Lower(rule.key)], st.entries, SetField(rule, v, st).entries;
            && |s| <= |s'|
            && ((forall j :: 0 <= j < |s| ==> Lower(s'[j].key) == Lower(s[j].key)) <==>
                !(&& f.Some? && f.value < |s| && rule.opcode != Add && v != ""
                  && Lower(s[f.value].key) != Lower(rule.key)))
  {
    hide Lower;
    var f, s, s' := st.fields[Lower(rule.key)], st.entries, SetField(rule, v, st).entries;
    if f == None && rule.opcode != Rewrite {
      forall j: nat | j < |s| ensures s'[j].key == s[j].key {
        OverwrittenKeeps(rule, v, rule.ResponseTarget(), false, s, j);
      }
    } else if f.Some? && f.value < |s| && rule.opcode != Add {
      assert s'[f.value].key == if v == "" then s[f.value].key else rule.key;
    }
  }

  /** Through a field that is not null, an add does nothing, an empty value deletes the header, and another value goes
      into it with the rule's hash and key, dead or alive; everything else stays. */
  lemma {:induction false} ThroughField(rule: Rule, v: string, st: ResState, k: nat)
    requires k < |st.entries| && Lower(rule.key) in st.fields && st.fields[Lower(rule.key)] == Some(k)
    ensures var e := st.entries[k];
            SetField(rule, v, st) ==
              if rule.opcode == Add then st
              else if v == "" then st.(entries := st.entries[k := Entry(0, e.key, "", e.lowcaseKey)])
              else st.(entries := st.entries[k := Entry(rule.hash, rule.key, v, e.lowcaseKey)])
  {
    hide EditResponse, Reported;
  }

  /** What a rule on Cache-Control does to the list, whatever its operation: the first header of the chain gets the
      value, with the hash of the rule or 0, the others are deleted, and the rest stays. If there is no chain and a
      value, one header is added and is the chain. */
  lemma {:induction false} ChainEntries(rule: Rule, v: string, st: ResState)
    requires var b := Lower(rule.key); b in st.chains && Chained(b, st.chains[b], st.entries)
    ensures var c, s, st' := st.chains[Lower(rule.key)], st.entries, SetChain(rule, v, st);
            if c == [] && v == "" then st' == st
            else if c == [] then
              && st'.entries == s + [Entry(rule.hash, "Cache-Control", v, "")]
              && st' == st.(entries := st'.entries, chains := st.chains[Lower(rule.key) := [|s|]])
            else
              && st' == st.(entries := st'.entries) && |st'.entries| == |s|
              && forall j: nat :: j < |s| ==>
                   st'.entries[j] ==
                     if j == c[0] then s[j].(hash := if v == "" then 0 else rule.hash, value := v)
                     else if j in c then s[j].(hash := 0, value := "")
                     else s[j]
  {
    hide Lower;
    var c, s := st.chains[Lower(rule.key)], st.entries;
    if c != [] {
      assert c == [c[0]] + c[1..];
      forall j: nat | j < |s|
        ensures Marked(s, c[1..])[j] == if j in c[1..] then s[j].(hash := 0, value := "") else s[j]
      {
        MarkedAt(s, c[1..], j);
      }
    }
  }

  /** The last header of a name that is sent. */
  lemma {:induction false} LastSent(key: string, s: seq<Entry>) returns (last: nat)
    ensures last <= |s| && (last < |s| ==> s[last].hash != 0 && SameLetters(s[last].key, key))
    ensures forall k :: 0 <= k < |s| && (k > last || last == |s|) && s[k].hash != 0 ==> !SameLetters(s[k].key, key)
    ensures AnyHit(Exact(key), s) <==> last < |s|
    ensures LastHit(Exact(key), s) == if last < |s| then Some(last) else None
  {
    hide SameLetters, Lower;
    if s == [] {
      last := 0;
    } else {
      var n := |s| - 1;
      assert s == s[..n] + [s[n]];
      NamesByCode(s[n].key);
      last := LastSent(key, s[..n]);
      AnyHitSnoc(Exact(key), s[..n], s[n]);
      last := if Hits(Exact(key), s[n]) then n else if last < n then last else n + 1;
    }
  }

  lemma {:induction false} AnyHitSnoc(t: Target, s: seq<Entry>, e: Entry)
    ensures AnyHit(t, s + [e]) <==> AnyHit(t, s) || Hits(t, e)
  {
    hide Hits;
    if s == [] {
      assert s + [e] == [e] && [e][1..] == [];
    } else {
      assert (s + [e])[1..] == s[1..] + [e];
      AnyHitSnoc(t, s[1..], e);
    }
  }

  /** Through a field that is null a rewrite does nothing, and any other rule edits the list. The field gets the header
      that is created if none of the name is sent; otherwise it stays null for an add, and gets the last header of the
      name that was sent for the other operations. */
  lemma {:induction false} ThroughNull(rule: Rule, v: string, st: ResState) returns (last: nat)
    requires !rule.wildcard && rule.opcode != Append
    requires Lower(rule.key) in st.fields && st.fields[Lower(rule.key)] == None
    ensures var s := st.entries;
            && last <= |s|
            && (last < |s| ==> s[last].hash != 0 && SameLetters(s[last].key, rule.key))
            && forall k :: 0 <= k < |s| && (k > last || last == |s|) && s[k].hash != 0 ==>
                 !SameLetters(s[k].key, rule.key)
    ensures var s, st' := st.entries, SetField(rule, v, st);
            if rule.opcode == Rewrite then st' == st
            else
              && st'.entries == EditResponse(rule, v, false, s)
              && st'.fields == st.fields[Lower(rule.key) :=
                   if last == |s| then Some(|s|) else if rule.opcode == Add then None else Some(last)]
  {
    hide Lower, SameLetters, EditResponse;
    last := LastSent(rule.key, st.entries);
  }

  // ---------- the values kept outside the list ----------

  /** What the documented operations would do to the type of a response, which is empty while it has none. */
  function DocumentedType(op: Opcode, v: string, contentType: string): string {
    match op
    case Add => if contentType == "" then v else contentType
    case Rewrite => if contentType == "" then "" else v
    case _ => v
  }

  /** The Content-Type handler ignores the operation: it does what is documented exactly if an add meets no other type
      and a rewrite with a value meets one. */
  lemma {:induction false} TypeAsDocumented(rule: Rule, v: string, st: ResState)
    requires rule.handler == ContentType
    ensures var st' := HandleResponse(rule, v, st).0;
            && st'.contentType == v
            && (st'.contentType == DocumentedType(rule.opcode, v, st.contentType) <==>
                  && (rule.opcode == Add && st.contentType != "" ==> v == st.contentType)
                  && (rule.opcode == Rewrite && st.contentType == "" ==> v == ""))
  {
    hide EditResponse, Introducer, CharsetOf;
  }

  /** Adding a type replaces the one that is there, and rewriting one sets it where there is none. */
  lemma {:induction false} AddReplacesType()
    ensures var add, rewrite := Rule("Content-Type", 1, Add, false, false, None, "t", ContentType),
            Rule("Content-Type", 1, Rewrite, false, false, None, "t", ContentType);
            var st := ResState([], map[], map[], "text/html", 9, Unset, -1);
            && HandleResponse(add, "text/css", st).0.contentType == "text/css"
            && HandleResponse(rewrite, "text/css", st.(contentType := "")).0.contentType == "text/css"
  {
    hide EditResponse, Introducer, CharsetOf;
  }

  /** The length is that of the live Content-Length header, and -1 if there is none. */
  predicate LengthMatches(name: string, st: ResState) {
    var f := st.Field(name);
    if f.Some? && f.value < |st.entries| && st.entries[f.value].hash != 0 then
      var size := ParseSize(st.entries[f.value].value);
      size.Some? && size.value == st.contentLength
    else
      st.contentLength == -1
  }

  /** An add meets no header, dead or alive, or one with the same length or, if the value is empty, a dead one; a
      rewrite with a value meets one. */
  predicate LengthEffective(rule: Rule, v: string, st: ResState) {
    var f := st.Field(Lower(rule.key));
    && (rule.opcode == Add && f.Some? && f.value < |st.entries| ==>
          var e := st.entries[f.value];
          if v == "" then e.hash == 0 else e.hash != 0 && ParseSize(e.value) == ParseSize(v))
    && (rule.opcode == Rewrite && f == None ==> v == "")
  }

  /** A rule on Content-Length fails exactly on a value that is no size, and then changes nothing. Otherwise the length
      agrees with the header afterwards exactly under that condition. */
  lemma {:induction false} LengthAgrees(rule: Rule, v: string, st: ResState)
    requires var b := Lower(rule.key); b in st.fields && Points(b, st.fields[b], st.entries)
    requires rule.handler == ContentLength && !rule.wildcard && rule.opcode != Append && rule.hash != 0
    ensures var (st', ok) := HandleResponse(rule, v, st);
            && (ok <==> v == "" || ParseSize(v).Some?)
            && (!ok ==> st' == st)
            && (ok ==> (LengthMatches(Lower(rule.key), st') <==> LengthEffective(rule, v, st)))
  {
    hide EditResponse, Reported, ParseSize, Lower;
    var b, s := Lower(rule.key), st.entries;
    if st.fields[b] == None && rule.opcode != Rewrite {
      CreatedPoints(rule, v, b, s);
    }
  }

  // ---------- inputs on which things go wrong ----------

  /** A response with one header of a name, in the field of that name. */
  function With(e: Entry): ResState {
    ResState([e], map[Lower(e.key) := Some(0)], map[], "", 0, Unset, -1)
  }

  /** Rewriting Server after it has been cleared sends it again; adding it then does not. */
  lemma {:induction false} ClearedServer()
    ensures var rewrite, add := Rule("Server", 1, Rewrite, false, false, None, "x", Builtin),
            Rule("Server", 1, Add, false, false, None, "x", Builtin);
            var st := With(Entry(0, "Server", "", "server"));
            && Points(Lower("Server"), Some(0), st.entries) && MeetsCleared(rewrite, "x", st)
                && MeetsCleared(add, "x", st)
            && Visible(st.entries) == []
            && Visible(SetField(rewrite, "x", st).entries) == [Header("Server", "x")]
                && Visible(SetField(add, "x", st).entries) == []
  {
    hide Lower;
    var e := Entry(1, "Server", "x", "server");
    assert Visible([e]) == [Header("Server", "x")];
  }

  /** Adding an empty Content-Length where there is one keeps that header but forgets the length. */
  lemma {:induction false} AddLengthForgets()
    ensures var rule := Rule("Content-Length", 1, Add, false, false, None, "$n", ContentLength);
            var st := With(Entry(1, "Content-Length", "7", "content-length")).(contentLength := 7);
            HandleResponse(rule, "", st) == (st.(contentLength := -1), true) && !LengthEffective(rule, "", st)
  {
    hide Lower, ParseSize;
  }

  /** Adding to Cache-Control overwrites it. */
  lemma {:induction false} AddOverwritesCacheControl()
    ensures var rule := Rule("Cache-Control", 1, Add, false, false, None, "no-store", Multi);
            var e, name := Entry(1, "Cache-Control", "public", ""), Lower("Cache-Control");
            var st := ResState([e], map[], map[name := [0]], "", 0, Unset, -1);
            SetChain(rule, "no-store", st).entries == [e.(value := "no-store")]
                && !ChainEffective(rule, "no-store", ["public"])
  {
    hide Lower;
    var e, name := Entry(1, "Cache-Control", "public", ""), Lower("Cache-Control");
    var st := ResState([e], map[], map[name := [0]], "", 0, Unset, -1);
    assert Marked(st.entries, []) == st.entries;
    assert [0][1..] == [];
  }

  /** A field that holds a header of another name is not right itself, but does no harm to the other fields; a rule on
      its name gives the header that name. */
  lemma {:induction false} OtherName(name: string, key: string, value: string, v: string, good: set<string>)
    requires Lower(name) != Lower(key) && Lower(name) !in good && Lower(key) !in good && v != ""
    ensures var st := With(Entry(1, key, value, "")).(fields := map[Lower(name) := Some(0)]);
            var rule := Rule(name, 1, Set, false, false, None, "$v", Builtin);
            && !Points(Lower(name), Some(0), st.entries) && IndexedOn(good, st)
            && SetField(rule, v, st).entries == [Entry(1, name, v, "")]
  {
    hide Lower;
  }
}
