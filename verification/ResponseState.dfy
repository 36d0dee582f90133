/** What the response handlers do, as a function of the headers and the fields derived from them. */
module ResponseState {
  import opened Names
  import opened HeaderEdit
  import opened Rules
  import opened ResponseEdit
  import opened ContentTypes
  import opened RequestState

  /** The charset of a response: a range of the value it was found in. */
  datatype Charset = Unset | In(value: string, range: Range)

  /** What conditions and values can depend on. */
  datatype ResponseView = ResponseView(entries: seq<Entry>, contentType: string, typeLen: nat, charset: Charset,
      contentLength: int)

  /** A response. A builtin field stands for the header at its position, and the field of a multi-valued name for a
      chain of headers: on this side no header ever moves. */
  datatype ResState = ResState(entries: seq<Entry>, fields: map<string, Option<nat>>, chains: map<string, seq<nat>>,
                               contentType: string, typeLen: nat, charset: Charset, contentLength: int) {
    function View(): ResponseView {
      ResponseView(entries, contentType, typeLen, charset, contentLength)
    }

    function Field(name: string): Option<nat> {
      if name in fields then fields[name] else None
    }
  }

  // ---------- the handlers ----------

  /** The header of a field, given a new value in place. */
  function Revised(rule: Rule, v: string, e: Entry): Entry {
    if v == "" then e.(hash := 0, value := "") else e.(hash := rule.hash, key := rule.key, value := v)
  }

  /** A rule on a builtin name. */
  function SetField(rule: Rule, v: string, st: ResState): ResState {
    var name := Lower(rule.key);
    match st.Field(name)
    case None =>
      if rule.opcode == Rewrite then st
      else
        var reported := Reported(rule, v, false, st.entries);
        st.(entries := EditResponse(rule, v, false, st.entries),
            fields := if reported.Some? then st.fields[name := reported] else st.fields)
    case Some(i) =>
      if rule.opcode == Add || i >= |st.entries| then st
      else st.(entries := st.entries[i := Revised(rule, v, st.entries[i])])
  }

  /** Deletes the headers at some positions. */
  function Marked(s: seq<Entry>, positions: seq<nat>): (r: seq<Entry>)
    ensures |r| == |s|
    decreases |positions|
  {
    if positions == [] then s
    else
      var i := positions[0];
      Marked(if i < |s| then s[i := s[i].(hash := 0, value := "")] else s, positions[1..])
  }

  const CACHE_CONTROL := "Cache-Control"

  /** A rule on Cache-Control, whatever its operation: the first header of the chain gets the value and the others go,
      or a chain of one header starts. */
  function SetChain(rule: Rule, v: string, st: ResState): ResState {
    var name := Lower(rule.key);
    if name !in st.chains then st
    else if st.chains[name] != [] then
      var i, s := st.chains[name][0], Marked(st.entries, st.chains[name][1..]);
      if i >= |s| then st
      else st.(entries := s[i := s[i].(hash := if v == "" then 0 else rule.hash, value := v)])
    else if v == "" then st
    else
      st.(entries := st.entries + [Entry(rule.hash, CACHE_CONTROL, v, "")], chains := st.chains[name := [|st.entries|]])
  }

  /** The type, its length without parameters and its charset, which stays if the value has none. */
  function SetType(rule: Rule, v: string, st: ResState): ResState {
    st.(entries := EditResponse(rule, "", true, st.entries), contentType := v, typeLen := Introducer(v, 0),
        charset := match CharsetOf(v) case None => st.charset case Some(r) => In(v, r))
  }

  /** The handler that a rule's name selects. The Content-Type handler keeps the value outside the list; the
      Content-Length handler fails on a value that is no size. */
  function HandleResponse(rule: Rule, v: string, st: ResState): (ResState, bool) {
    match rule.handler
    case ContentType => (SetType(rule, v, st), true)
    case Builtin => (SetField(rule, v, st), true)
    case Multi => (SetChain(rule, v, st), true)
    case ContentLength =>
      if v == "" then (SetField(rule, v, st.(contentLength := -1)), true)
      else (match ParseSize(v)
            case None => (st, false)
            case Some(n) => (SetField(rule, v, st.(contentLength := n)), true))
    case _ => (st.(entries := EditResponse(rule, v, false, st.entries)), true)
  }

  /** A rule as the directive parser leaves it, for the builtin names `fields` and `chains` (in lower case) that have a
      field. */
  predicate Suits(rule: Rule, fields: set<string>, chains: set<string>) {
    && rule.handler != Host
    && (rule.handler == Builtin || rule.handler == ContentLength <==> Lower(rule.key) in fields)
    && (rule.handler == Multi <==> Lower(rule.key) in chains)
    && (rule.handler == Multi ==> SameName(rule.key, CACHE_CONTROL))
    && (rule.handler != Generic ==> !rule.wildcard && rule.opcode != Append)
  }

  // ---------- the fields as an index over the list ----------

  predicate Live(b: string, e: Entry) {
    e.hash != 0 && Lower(e.key) == b
  }

  /** A field that is null says that no header of the name is live; otherwise it stands for a header of the name, dead
      or alive, and no other one is live. */
  ghost predicate Points(b: string, f: Option<nat>, s: seq<Entry>) {
    && (f.Some? ==> f.value < |s| && Lower(s[f.value].key) == b)
    && (forall j: nat :: j < |s| && Live(b, s[j]) ==> f == Some(j))
  }

  /** A chain holds headers of the name, among them all that are live. */
  ghost predicate Chained(b: string, c: seq<nat>, s: seq<Entry>) {
    && (forall k :: 0 <= k < |c| ==> c[k] < |s| && Lower(s[c[k]].key) == b)
    && (forall j: nat :: j < |s| && Live(b, s[j]) ==> j in c)
  }

  /** The header at position `i` has no name of `good`. */
  predicate NoneOf(good: set<string>, i: nat, s: seq<Entry>) {
    i < |s| && Lower(s[i].key) !in good
  }

  /** The fields of the names in `good` are right, and no other field holds a header of such a name. */
  ghost predicate IndexedOn(good: set<string>, st: ResState) {
    && (forall b :: b in st.fields && b in good ==> Points(b, st.fields[b], st.entries))
    && (forall b :: b in st.chains && b in good ==> Chained(b, st.chains[b], st.entries))
    && (forall b :: b in st.fields && b !in good && st.fields[b].Some? ==> NoneOf(good, st.fields[b].value, st.entries))
    && (forall b :: b in st.chains && b !in good ==> forall i :: i in st.chains[b] ==> NoneOf(good, i, st.entries))
  }

  /** The list `s'` comes from `s` by a step that is about no name of `good` but `own`: names stay or change from and to
      names outside `good`, and no header comes to life under another name. */
  ghost predicate Steps(good: set<string>, own: string, s: seq<Entry>, s': seq<Entry>) {
    && |s| <= |s'|
    && (forall j :: 0 <= j < |s| ==>
        Lower(s'[j].key) == Lower(s[j].key) || (Lower(s'[j].key) !in good && Lower(s[j].key) !in good))
    && (forall j :: 0 <= j < |s| && s'[j].hash != 0 && Lower(s'[j].key) in good && Lower(s'[j].key) != own ==>
        s[j].hash != 0)
    && (forall j :: |s| <= j < |s'| ==> Lower(s'[j].key) in good ==> Lower(s'[j].key) == own)
  }

  /** Such a step keeps the other fields right. */
  lemma {:induction false} StepKeeps(good: set<string>, own: string, st: ResState, s': seq<Entry>)
    requires IndexedOn(good, st) && Steps(good, own, st.entries, s')
    ensures forall b :: b in st.fields && b in good && b != own ==> Points(b, st.fields[b], s')
    ensures forall b :: b in st.chains && b in good && b != own ==> Chained(b, st.chains[b], s')
    ensures forall b :: b in st.fields && b !in good && st.fields[b].Some? ==> NoneOf(good, st.fields[b].value, s')
    ensures forall b :: b in st.chains && b !in good ==> forall i :: i in st.chains[b] ==> NoneOf(good, i, s')
  {
    var s := st.entries;
    forall b, j: nat | b in good && b != own && j < |s'| && Live(b, s'[j]) ensures j < |s| && Live(b, s[j]) {
    }
    forall b | b in st.fields && b in good && b != own ensures Points(b, st.fields[b], s') {
      assert Points(b, st.fields[b], s);
    }
    forall b | b in st.chains && b in good && b != own ensures Chained(b, st.chains[b], s') {
      assert Chained(b, st.chains[b], s);
    }
  }

  // ---------- the steps ----------

  /** A scan changes no name and brings no header back to life. */
  lemma {:induction false} OverwrittenKeeps(rule: Rule, v: string, t: Target, matched: bool, s: seq<Entry>, j: nat)
    requires j < |s|
    ensures var e := Overwritten(rule, v, t, matched, s)[j]; e.key == s[j].key && (e.hash != 0 ==> s[j].hash != 0)
    decreases s
  {
    if j > 0 {
      OverwrittenKeeps(rule, v, t, matched || Hits(t, s[0]), s[1..], j - 1);
    }
  }

  lemma {:induction false} EditSteps(good: set<string>, rule: Rule, v: string, noCreate: bool, s: seq<Entry>)
    ensures Steps(good, Lower(rule.key), s, EditResponse(rule, v, noCreate, s))
  {
    var s', t := EditResponse(rule, v, noCreate, s), rule.ResponseTarget();
    forall j: nat | j < |s| ensures s'[j].key == s[j].key && (s'[j].hash != 0 ==> s[j].hash != 0) {
      OverwrittenKeeps(rule, v, t, false, s, j);
    }
    assert |s'| > |s| ==> s'[|s|].key == rule.key && |s'| == |s| + 1;
  }

  lemma {:induction false} NoHits(t: Target, s: seq<Entry>)
    requires forall j: nat :: j < |s| ==> !Hits(t, s[j])
    ensures !AnyHit(t, s)
  {
    if s != [] {
      NoHits(t, s[1..]);
    }
  }

  /** Through a field that is null a header is created, and the field gets it. */
  lemma {:induction false} CreatedPoints(rule: Rule, v: string, b: string, s: seq<Entry>)
    requires Points(b, None, s) && Lower(rule.key) == b && !rule.wildcard && rule.opcode != Rewrite
    ensures EditResponse(rule, v, false, s) == s + [NewEntry(rule, v)] && Reported(rule, v, false, s) == Some(|s|)
    ensures Points(b, Some(|s|), s + [NewEntry(rule, v)])
  {
    forall j: nat | j < |s| ensures !Hits(Exact(rule.key), s[j]) {
      assert !Live(b, s[j]);
    }
    NoHits(Exact(rule.key), s);
  }

  /** Whatever the field gets is a header of the rule's own name. */
  lemma {:induction false} ReportedName(rule: Rule, v: string, s: seq<Entry>)
    requires !rule.wildcard && Reported(rule, v, false, s).Some?
    ensures var i, s' := Reported(rule, v, false, s).value, EditResponse(rule, v, false, s);
            i < |s'| && Lower(s'[i].key) == Lower(rule.key)
  {
    var t := rule.ResponseTarget();
    LastHitHits(t, s);
    if rule.opcode != Append && AnyHit(t, s) {
      var i := LastHit(t, s).value;
      OverwrittenKeeps(rule, v, t, false, s, i);
    }
  }

  lemma {:induction false} LastHitHits(t: Target, s: seq<Entry>)
    ensures LastHit(t, s).Some? ==> Hits(t, s[LastHit(t, s).value])
  {
    if s != [] {
      LastHitHits(t, s[..|s| - 1]);
    }
  }

  lemma {:induction false} RevisedPoints(rule: Rule, v: string, s: seq<Entry>, i: nat)
    requires Points(Lower(rule.key), Some(i), s)
    ensures Points(Lower(rule.key), Some(i), s[i := Revised(rule, v, s[i])])
  {
    var b, s' := Lower(rule.key), s[i := Revised(rule, v, s[i])];
    assert forall j: nat :: j < |s'| && j != i ==> s'[j] == s[j];
  }

  /** The handler of the builtin names keeps all fields right. */
  lemma {:induction false} SetFieldKeeps(good: set<string>, rule: Rule, v: string, st: ResState)
    requires IndexedOn(good, st) && Lower(rule.key) in st.fields && Lower(rule.key) !in st.chains && !rule.wildcard
    ensures var st' := SetField(rule, v, st);
            IndexedOn(good, st') && st'.fields.Keys == st.fields.Keys && st'.chains == st.chains
  {
    hide EditResponse, Reported, Points, Chained, Lower;
    var name, st', s := Lower(rule.key), SetField(rule, v, st), st.entries;
    var f := st.fields[name];
    if f == None && rule.opcode != Rewrite {
      EditSteps(good, rule, v, false, s);
      if Reported(rule, v, false, s).Some? {
        ReportedName(rule, v, s);
      }
      if name in good {
        CreatedPoints(rule, v, name, s);
      }
      hide Steps;
      StepKeeps(good, name, st, st'.entries);
    } else if f.Some? && rule.opcode != Add && f.value < |s| {
      RevisedSteps(good, rule, v, st, f.value);
      if name in good {
        RevisedPoints(rule, v, s, f.value);
      }
      hide Steps;
      StepKeeps(good, name, st, st'.entries);
    }
  }

  lemma {:induction false} RevisedSteps(good: set<string>, rule: Rule, v: string, st: ResState, i: nat)
    requires IndexedOn(good, st) && Lower(rule.key) in st.fields && st.fields[Lower(rule.key)] == Some(i)
             && i < |st.entries|
    ensures Steps(good, Lower(rule.key), st.entries, st.entries[i := Revised(rule, v, st.entries[i])])
  {
    var name := Lower(rule.key);
    if name in good {
      assert Points(name, Some(i), st.entries);
    } else {
      assert NoneOf(good, i, st.entries);
    }
  }

  // ---------- chains ----------

  lemma {:induction false} MarkedAt(s: seq<Entry>, positions: seq<nat>, j: nat)
    requires j < |s|
    ensures Marked(s, positions)[j] == if j in positions then s[j].(hash := 0, value := "") else s[j]
    decreases |positions|
  {
    if positions != [] {
      var i := positions[0];
      MarkedAt(if i < |s| then s[i := s[i].(hash := 0, value := "")] else s, positions[1..], j);
      assert j in positions <==> j == i || j in positions[1..];
    }
  }

  /** A chain, after its first header got a value and the others were deleted. */
  lemma {:induction false} ChainKeeps(b: string, c: seq<nat>, s: seq<Entry>, hash: nat, v: string)
    requires Chained(b, c, s) && c != []
    ensures var m := Marked(s, c[1..]); var s' := m[c[0] := m[c[0]].(hash := hash, value := v)];
            && Chained(b, c, s') && Points(b, Some(c[0]), s') && s'[c[0]] == s[c[0]].(hash := hash, value := v)
  {
    var m := Marked(s, c[1..]);
    var s' := m[c[0] := m[c[0]].(hash := hash, value := v)];
    forall j: nat | j < |s| ensures m[j] == if j in c[1..] then s[j].(hash := 0, value := "") else s[j] {
      MarkedAt(s, c[1..], j);
    }
    assert c == [c[0]] + c[1..];
    assert forall j: nat :: j < |s| && Live(b, s[j]) ==> j == c[0] || j in c[1..];
    assert forall j: nat :: j < |s| && j != c[0] ==> s'[j] == m[j];
  }

  lemma {:induction false} ChainSteps(good: set<string>, own: string, c: seq<nat>, s: seq<Entry>, hash: nat, v: string)
    requires c != [] && c[0] < |s| && (own in good ==> Chained(own, c, s)) && (own !in good ==> NoneOf(good, c[0], s))
    ensures var m := Marked(s, c[1..]); Steps(good, own, s, m[c[0] := m[c[0]].(hash := hash, value := v)])
  {
    var m := Marked(s, c[1..]);
    forall j: nat | j < |s| ensures m[j] == if j in c[1..] then s[j].(hash := 0, value := "") else s[j] {
      MarkedAt(s, c[1..], j);
    }
  }

  /** The handler of Cache-Control keeps all fields right. */
  lemma {:induction false} SetChainKeeps(good: set<string>, rule: Rule, v: string, st: ResState)
    requires IndexedOn(good, st) && Lower(rule.key) in st.chains && Lower(rule.key) !in st.fields
             && SameName(rule.key, CACHE_CONTROL)
    ensures var st' := SetChain(rule, v, st);
            IndexedOn(good, st') && st'.fields == st.fields && st'.chains.Keys == st.chains.Keys
  {
    hide Points, Chained, Lower;
    var name, s, st' := Lower(rule.key), st.entries, SetChain(rule, v, st);
    var c, hash := st.chains[name], if v == "" then 0 else rule.hash;
    if c != [] {
      InChain(good, st, name);
      ChainSteps(good, name, c, s, hash, v);
      if name in good {
        ChainKeeps(name, c, s, hash, v);
      }
      hide Steps;
      StepKeeps(good, name, st, st'.entries);
    } else if v != "" {
      StartsChain(good, name, s, Entry(rule.hash, CACHE_CONTROL, v, ""), st.chains[name]);
      hide Steps;
      StepKeeps(good, name, st, st'.entries);
    }
  }

  lemma {:induction false} InChain(good: set<string>, st: ResState, name: string)
    requires IndexedOn(good, st) && name in st.chains && st.chains[name] != []
    ensures var i := st.chains[name][0]; i < |st.entries| && (name !in good ==> NoneOf(good, i, st.entries))
    ensures name in good ==> Chained(name, st.chains[name], st.entries)
  {
    assert st.chains[name][0] in st.chains[name];
    if name in good {
      assert Chained(name, st.chains[name], st.entries);
    }
  }

  lemma {:induction false} StartsChain(good: set<string>, name: string, s: seq<Entry>, e: Entry, c: seq<nat>)
    requires Lower(e.key) == name && c == [] && (name in good ==> Chained(name, c, s))
    ensures Steps(good, name, s, s + [e])
    ensures name in good ==> Chained(name, [|s|], s + [e]) && Points(name, Some(|s|), s + [e])
    ensures name !in good ==> NoneOf(good, |s|, s + [e])
  {
    assert forall j: nat :: j < |s| ==> (s + [e])[j] == s[j];
    assert name in good ==> forall j: nat :: j < |s| ==> !Live(name, s[j]);
  }

  // ---------- every handler ----------

  /** Every rule that the parser accepts keeps the fields right, prefix clears of builtin names included. */
  lemma {:induction false} HandleKeepsIndexed(good: set<string>, rule: Rule, v: string, st: ResState)
    requires IndexedOn(good, st) && Suits(rule, st.fields.Keys, st.chains.Keys)
    ensures var st' := HandleResponse(rule, v, st).0;
            IndexedOn(good, st') && st'.fields.Keys == st.fields.Keys && st'.chains.Keys == st.chains.Keys
  {
    hide EditResponse, SetField, SetChain, IndexedOn, ParseSize, Lower, Introducer, CharsetOf;
    if rule.handler == Builtin {
      SetFieldKeeps(good, rule, v, st);
    } else if rule.handler == ContentLength {
      var n := if v == "" || ParseSize(v) == None then -1 else ParseSize(v).value;
      SameIndex(good, st, st.(contentLength := n));
      SetFieldKeeps(good, rule, v, st.(contentLength := n));
    } else if rule.handler == Multi {
      SetChainKeeps(good, rule, v, st);
    } else if rule.handler == ContentType {
      EditKeeps(good, rule, "", true, st, SetType(rule, v, st));
    } else {
      EditKeeps(good, rule, v, false, st, HandleResponse(rule, v, st).0);
    }
  }

  lemma {:induction false} SameIndex(good: set<string>, st: ResState, st': ResState)
    requires IndexedOn(good, st) && st'.entries == st.entries && st'.fields == st.fields && st'.chains == st.chains
    ensures IndexedOn(good, st')
  {
  }

  /** An edit about a name without a field, or about a pattern. */
  lemma {:induction false} EditKeeps(good: set<string>, rule: Rule, v: string, noCreate: bool, st: ResState,
                                     st': ResState)
    requires IndexedOn(good, st) && Lower(rule.key) !in st.fields && Lower(rule.key) !in st.chains
    requires st'.entries == EditResponse(rule, v, noCreate, st.entries) && st'.fields == st.fields
             && st'.chains == st.chains
    ensures IndexedOn(good, st')
  {
    hide EditResponse, Steps, Points, Chained, Lower;
    EditSteps(good, rule, v, noCreate, st.entries);
    StepKeeps(good, Lower(rule.key), st, st'.entries);
  }
}
