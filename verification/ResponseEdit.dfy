/** The edit of the response header list, which marks headers as deleted and never takes one out. */
module ResponseEdit {
  import opened HeaderEdit
  import opened Rules
  import opened AbstractEdit

  /** A header that is there and covered. */
  predicate Hits(t: Target, e: Entry) {
    e.hash != 0 && t.Covers(e.key)
  }

  predicate AnyHit(t: Target, s: seq<Entry>) {
    s != [] && (Hits(t, s[0]) || AnyHit(t, s[1..]))
  }

  /** What a hit becomes: the first one gets the value, unless it is empty; the others are marked as deleted. */
  function Rewritten(rule: Rule, v: string, matched: bool, e: Entry): Entry {
    if v == "" || matched then e.(hash := 0, value := "") else e.(hash := rule.hash, value := v)
  }

  /** The list after a scan; `matched` says that there was a hit in front of it. */
  function Overwritten(rule: Rule, v: string, t: Target, matched: bool, s: seq<Entry>): (r: seq<Entry>)
    ensures |r| == |s|
    decreases s
  {
    if s == [] then []
    else if Hits(t, s[0]) then [Rewritten(rule, v, matched, s[0])] + Overwritten(rule, v, t, true, s[1..])
    else [s[0]] + Overwritten(rule, v, t, matched, s[1..])
  }

  /** The whole edit. With `noCreate` an empty value creates nothing. */
  function EditResponse(rule: Rule, v: string, noCreate: bool, s: seq<Entry>): seq<Entry> {
    var t := rule.ResponseTarget();
    if rule.opcode == Append then s + [NewEntry(rule, v)]
    else if !AnyHit(t, s) then
      if rule.opcode == Rewrite || ((rule.wildcard || noCreate) && v == "") then s else s + [NewEntry(rule, v)]
    else if rule.opcode == Add then s
    else Overwritten(rule, v, t, false, s)
  }

  /** The last hit. */
  function LastHit(t: Target, s: seq<Entry>): (r: Option<nat>)
    ensures r.Some? ==> r.value < |s|
  {
    if s == [] then None
    else if Hits(t, s[|s| - 1]) then Some(|s| - 1)
    else LastHit(t, s[..|s| - 1])
  }

  lemma {:induction false} LastHitSnoc(t: Target, s: seq<Entry>, e: Entry)
    ensures LastHit(t, s + [e]) == if Hits(t, e) then Some(|s|) else LastHit(t, s)
  {
    assert (s + [e])[..|s|] == s;
  }

  /** The header that an edit reports to the field it is given, if it reports one: the last hit, or the new header. */
  function Reported(rule: Rule, v: string, noCreate: bool, s: seq<Entry>): Option<nat> {
    var t := rule.ResponseTarget();
    if rule.opcode == Append then Some(|s|)
    else if !AnyHit(t, s) then
      if rule.opcode == Rewrite || ((rule.wildcard || noCreate) && v == "") then None else Some(|s|)
    else if rule.opcode == Add then None
    else LastHit(t, s)
  }

  // ---------- what the client sees ----------

  function Visible(s: seq<Entry>): seq<Header> {
    if s == [] then [] else (if s[0].hash == 0 then [] else [Header(s[0].key, s[0].value)]) + Visible(s[1..])
  }

  lemma {:induction false} VisibleConcat(a: seq<Entry>, b: seq<Entry>)
    ensures Visible(a + b) == Visible(a) + Visible(b)
  {
    if a == [] {
      assert a + b == b;
    } else {
      assert (a + b)[1..] == a[1..] + b;
      VisibleConcat(a[1..], b);
    }
  }

  lemma {:induction false} VisiblePresent(t: Target, s: seq<Entry>)
    ensures AnyHit(t, s) <==> Present(t, Visible(s))
  {
    if s != [] {
      VisiblePresent(t, s[1..]);
      if s[0].hash != 0 {
        assert Visible(s)[1..] == Visible(s[1..]);
      } else {
        assert Visible(s) == Visible(s[1..]);
      }
    }
  }

  /** A scan leaves visible what the abstract edit leaves. */
  lemma {:induction false} VisibleOverwritten(rule: Rule, v: string, t: Target, matched: bool, s: seq<Entry>)
    requires rule.hash != 0
    ensures Visible(Overwritten(rule, v, t, matched, s))
         == if v == "" || matched then Without(t, Visible(s)) else OnlyOne(v, t, Visible(s))
    decreases s
  {
    if s != [] {
      var hit := Hits(t, s[0]);
      VisibleOverwritten(rule, v, t, matched || hit, s[1..]);
      var e := if hit then Rewritten(rule, v, matched, s[0]) else s[0];
      var rest := Overwritten(rule, v, t, matched || hit, s[1..]);
      assert Overwritten(rule, v, t, matched, s) == [e] + rest;
      assert ([e] + rest)[1..] == rest;
      if s[0].hash != 0 {
        assert Visible(s) == [Header(s[0].key, s[0].value)] + Visible(s[1..]);
        assert Visible(s)[1..] == Visible(s[1..]);
      } else {
        assert Visible(s) == Visible(s[1..]);
      }
      if e.hash == 0 {
        assert Visible([e] + rest) == Visible(rest);
      }
    }
  }

  /** The response side, which marks, performs the edit too, with one exception: appending an empty value adds a header
      that is never sent. */
  lemma {:induction false} MarkingRefines(rule: Rule, v: string, noCreate: bool, s: seq<Entry>)
    requires rule.hash != 0
    ensures Visible(EditResponse(rule, v, noCreate, s)) == EditHeaders(rule, v, rule.ResponseTarget(), Visible(s))
       <==> !(rule.opcode == Append && v == "")
  {
    var t := rule.ResponseTarget();
    VisiblePresent(t, s);
    VisibleConcat(s, [NewEntry(rule, v)]);
    VisibleOne(rule, v);
    hide Visible, AnyHit, Present, Overwritten;
    if rule.opcode == Append {
      assert v == "" ==> |Visible(s)| < |Visible(s) + [Header(rule.key, v)]|;
    } else if AnyHit(t, s) {
      VisibleOverwritten(rule, v, t, false, s);
    }
  }

  lemma {:induction false} VisibleOne(rule: Rule, v: string)
    requires rule.hash != 0
    ensures Visible([NewEntry(rule, v)]) == if v == "" then [] else [Header(rule.key, v)]
  {
  }

  /** Appending nothing to nothing: the edit says that there is a header then, but none is sent. */
  lemma {:induction false} EmptyAppendIsHidden()
    ensures var rule := Rule("X-Id", 1, Append, false, false, None, "$id", Generic);
            Visible(EditResponse(rule, "", false, [])) == []
                && EditHeaders(rule, "", rule.ResponseTarget(), Visible([])) == [Header("X-Id", "")]
  {
    VisibleOne(Rule("X-Id", 1, Append, false, false, None, "$id", Generic), "");
  }
}
