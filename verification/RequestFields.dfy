/** What rules on builtin request headers leave, in the list and in the values derived from it. */
module RequestFields {
  import opened Names
  import opened Seqs
  import opened HeaderEdit
  import opened Rules
  import opened RequestEdit
  import opened RequestState
  import opened RequestAgreement
  import opened AbstractEdit
  import HostValidator

  /** The value of the first header of a name. */
  function FirstValue(key: string, s: seq<Entry>): Option<string> {
    var f := First(Exact(key), Keys(s));
    if f < |s| then Some(s[f].value) else None
  }

  lemma {:induction false} EditCreates(rule: Rule, v: string, s: seq<Entry>)
    requires First(Exact(rule.key), Keys(s)) == |s| && !rule.wildcard && rule.opcode != Append
    ensures Edit(rule, v, s) == if v == "" || rule.opcode == Rewrite then s else s + [NewEntry(rule, v)]
  {
    if v == "" {
      DropNone(Exact(rule.key), Keys(s), s);
    }
  }

  /** What a rule on a builtin name leaves as the first value of its name: an add keeps a value that is there, a rewrite
      does not create one, and an empty value deletes it. */
  lemma {:induction false} FirstValueAfter(rule: Rule, v: string, s: seq<Entry>)
    requires !rule.wildcard && rule.opcode != Append
    ensures var before := FirstValue(rule.key, s);
            FirstValue(rule.key, BuiltinEdit(rule, v, s)) ==
              if before.Some? && rule.opcode == Add then before
              else if v == "" || (before == None && rule.opcode == Rewrite) then None
              else Some(v)
  {
    hide Edit, BuiltinEdit, First, Keys;
    var t := Exact(rule.key);
    FirstInRange(t, s);
    var f := First(t, Keys(s));
    if f == |s| {
      BuiltinIsEdit(rule, v, s);
      EditCreates(rule, v, s);
      FirstOfNew(rule, v, s);
    } else if rule.opcode == Add {
      BuiltinIsEdit(rule, v, s);
      EditAddsNothing(rule, v, s);
    } else if v == "" {
      BuiltinIsEdit(rule, v, s);
      AllDeleted(rule, s);
    } else {
      BuiltinInPlace(rule, v, s);
      KeysUpdate(s, f, s[f].(hash := rule.hash, value := v));
    }
  }

  lemma {:induction false} FirstInRange(t: Target, s: seq<Entry>)
    ensures First(t, Keys(s)) <= |s| == |Keys(s)|
  {
  }

  lemma {:induction false} FirstOfNew(rule: Rule, v: string, s: seq<Entry>)
    requires First(Exact(rule.key), Keys(s)) == |s|
    ensures First(Exact(rule.key), Keys(s + [NewEntry(rule, v)])) == |s|
  {
    KeysConcat(s, [NewEntry(rule, v)]);
    FirstIs(Exact(rule.key), Keys(s + [NewEntry(rule, v)]), |s|);
  }

  lemma {:induction false} AllDeleted(rule: Rule, s: seq<Entry>)
    requires !rule.wildcard && rule.opcode != Append && rule.opcode != Add
    ensures var s' := Edit(rule, "", s); First(Exact(rule.key), Keys(s')) == |s'|
  {
    var t := Exact(rule.key);
    KeptCleared(rule.opcode, t, Keys(s), s);
    NoneDropped(t, s);
    assert Edit(rule, "", s) == Drop(t, Keys(s), s);
  }

  lemma {:induction false} NoneDropped(t: Target, s: seq<Entry>)
    ensures var s' := Drop(t, Keys(s), s); First(t, Keys(s')) == |s'|
  {
    if s != [] {
      NoneDropped(t, s[1..]);
      var rest := Drop(t, Keys(s[1..]), s[1..]);
      assert Drop(t, Keys(s), s) == if t.Covers(s[0].key) then rest else [s[0]] + rest;
      assert ([s[0]] + rest)[1..] == rest;
    }
  }

  /** Through a field that is not null, a value goes into the header at that address, with the hash of the rule; key,
      lower-case key, addresses and fields stay. An add does nothing. */
  lemma {:induction false} ThroughField(rule: Rule, v: string, st: ReqState, k: nat)
    requires |st.ids| == |st.entries| && NoDup(st.ids) && k < |st.ids|
    requires Lower(rule.key) in st.fields && st.fields[Lower(rule.key)] == Some(st.ids[k])
    requires rule.opcode == Add || (rule.opcode != Append && v != "")
    ensures var e := st.entries[k];
            SetBuiltin(rule, v, st) ==
              if rule.opcode == Add then st
              else st.(entries := st.entries[k := Entry(rule.hash, e.key, v, e.lowcaseKey)])
  {
    hide AppliedThrough;
    assert PositionOf(st.ids, st.ids[k]) == k;
  }

  /** Through a field that is null the list is edited: `f` is the position of the first header of the name, or the
      length. The field gets the address of that header if it gets a value, or the address of a header that is created,
      and is null otherwise. */
  lemma {:induction false} ThroughNull(rule: Rule, v: string, st: ReqState) returns (f: nat)
    requires |st.ids| == |st.entries| && !rule.wildcard && rule.opcode != Append
    requires Lower(rule.key) in st.fields && st.fields[Lower(rule.key)] == None
    ensures f <= |st.entries| && forall k :: 0 <= k < |st.entries| && k <= f ==>
              (k == f <==> SameLetters(st.entries[k].key, rule.key))
    ensures var st' := SetBuiltin(rule, v, st);
            && st'.entries == Edit(rule, v, st.entries)
            && st'.fields == st.fields[Lower(rule.key) :=
                 if v == "" then None
                 else if f < |st.entries| then (if rule.opcode == Add then None else Some(st.ids[f]))
                 else if rule.opcode == Rewrite then None
                 else Some(if st.spare == None then st.used else st.spare.value)]
  {
    hide Edit, Kept, Lower, SameLetters;
    f := First(Exact(rule.key), Keys(st.entries));
    FirstInRange(Exact(rule.key), st.entries);
    forall k | 0 <= k < |st.entries|
      ensures SameName(Keys(st.entries)[k], rule.key) <==> SameLetters(st.entries[k].key, rule.key)
    {
      NamesByCode(st.entries[k].key);
    }
  }

  // ---------- the values derived from Host and Content-Length ----------

  /** `server` is the normal form of the first Host header, and empty if there is none. */
  predicate ServerAgrees(key: string, st: ReqState) {
    match FirstValue(key, st.entries)
    case None => st.server == ""
    case Some(host) => HostValidator.Normalize(host) == Some(st.server)
  }

  /** An add meets a header with the same normal form, if any, and a rewrite with a value meets a header. */
  predicate HostEffective(rule: Rule, v: string, s: seq<Entry>) {
    var before := FirstValue(rule.key, s);
    && (rule.opcode == Add && before.Some? ==>
        v != "" && HostValidator.Normalize(before.value) == HostValidator.Normalize(v))
    && (rule.opcode == Rewrite && v != "" ==> before.Some?)
  }

  /** A rule on Host fails exactly on a value that is not valid, and then changes nothing. Otherwise `server` agrees
      with the Host header afterwards exactly under that condition. */
  lemma {:induction false} HostAgrees(rule: Rule, v: string, st: ReqState)
    requires Right(Lower(rule.key), st)
    requires rule.handler == Host && !rule.wildcard && rule.opcode != Append
    ensures var (st', ok) := Handle(rule, v, st);
            && (ok <==> v == "" || HostValidator.Normalize(v).Some?)
            && (!ok ==> st' == st)
            && (ok ==> (ServerAgrees(rule.key, st') <==> HostEffective(rule, v, st.entries)))
  {
    hide BuiltinEdit, HostValidator.Normalize, FirstValue, Coherent, RequestState.SetBuiltin;
    var server := if v == "" || HostValidator.Normalize(v) == None then "" else HostValidator.Normalize(v).value;
    var st1 := st.(server := server);
    OwnEdit(rule, v, st1);
    BuiltinDerived(rule, v, st1);
    FirstValueAfter(rule, v, st.entries);
    if v != "" && HostValidator.Normalize(v).Some? {
      HostValidator.NormalizeIdempotent(v);
    }
    var before := FirstValue(rule.key, st.entries);
    if before.Some? && HostValidator.Normalize(before.value).Some? {
      HostValidator.NormalizeIdempotent(before.value);
    }
  }

  /** The length is that of the first Content-Length header, and -1 if there is none. */
  predicate LengthMatches(key: string, st: ReqState) {
    match FirstValue(key, st.entries)
    case None => st.contentLength == -1
    case Some(size) => ParseSize(size).Some? && ParseSize(size).value == st.contentLength
  }

  predicate LengthEffective(rule: Rule, v: string, s: seq<Entry>) {
    var before := FirstValue(rule.key, s);
    && (rule.opcode == Add && before.Some? ==> v != "" && ParseSize(before.value) == ParseSize(v))
    && (rule.opcode == Rewrite && v != "" ==> before.Some?)
  }

  /** The same of Content-Length. */
  lemma {:induction false} LengthAgrees(rule: Rule, v: string, st: ReqState)
    requires Right(Lower(rule.key), st)
    requires rule.handler == ContentLength && !rule.wildcard && rule.opcode != Append
    ensures var (st', ok) := Handle(rule, v, st);
            && (ok <==> v == "" || ParseSize(v).Some?)
            && (!ok ==> st' == st)
            && (ok ==> (LengthMatches(rule.key, st') <==> LengthEffective(rule, v, st.entries)))
  {
    hide BuiltinEdit, ParseSize, FirstValue, Coherent, RequestState.SetBuiltin;
    var n := if v == "" || ParseSize(v) == None then -1 else ParseSize(v).value;
    var st1 := st.(contentLength := n);
    OwnEdit(rule, v, st1);
    BuiltinDerived(rule, v, st1);
    FirstValueAfter(rule, v, st.entries);
  }

  /** While its own field is right, a rule on a builtin name does what it means. */
  lemma {:induction false} OwnEdit(rule: Rule, v: string, st: ReqState)
    requires Right(Lower(rule.key), st) && !rule.wildcard && rule.opcode != Append
    ensures SetBuiltin(rule, v, st).entries == BuiltinEdit(rule, v, st.entries)
  {
    hide BuiltinEdit, Coherent, SetBuiltin;
    var b := Lower(rule.key);
    OnlyCoherent(b, st);
    BuiltinAgrees(rule, v, Only(b, st));
    BuiltinOnly(rule, v, st);
  }

  lemma {:induction false} BuiltinDerived(rule: Rule, v: string, st: ReqState)
    ensures var st' := SetBuiltin(rule, v, st);
            && st'.server == st.server && st'.contentLength == st.contentLength
            && st'.badRequest == st.badRequest
  {
    hide Edit, Kept, OutId, PositionOf;
  }

  // ---------- inputs on which things go wrong ----------

  /** A request with one header, in the field of its name. */
  function With(key: string, value: string): ReqState {
    ReqState([Entry(1, key, value, Lower(key))], "", -1, false, [0], None, 1, map[Lower(key) := Some(0)])
  }

  lemma {:induction false} WithOne(key: string, value: string)
    ensures Coherent(With(key, value)) && Keys(With(key, value).entries) == [key]
    ensures First(Exact(key), [key]) == 0 && FirstValue(key, With(key, value).entries) == Some(value)
  {
    LowerIdempotent(key);
    assert Keys(With(key, value).entries) == [key];
  }

  /** Adding a Host where there is one keeps that header but changes `server`; so does adding an empty one. */
  lemma {:induction false} AddHostChangesServer()
    ensures var rule := Rule("Host", 1, Add, false, false, None, "$h", Host);
            var st := With("Host", "a").(server := "a");
            && Handle(rule, "b", st) == (st.(server := "b"), true) && !HostEffective(rule, "b", st.entries)
            && Handle(rule, "", st) == (st.(server := ""), true) && !HostEffective(rule, "", st.entries)
  {
    hide HostValidator.Normalize, Lower, FirstValue, Coherent, Keys;
    WithOne("Host", "a");
    Letter('a');
    Letter('b');
  }

  lemma {:induction false} Letter(c: char)
    requires 'a' <= c <= 'z'
    ensures HostValidator.Normalize([c]) == Some([c])
  {
    assert [c][..1] == [c] && [c][1..] == "";
    assert HostValidator.HostEnd([c]) == 1;
    assert HostValidator.NameText([c]);
    assert HostValidator.Accepts([c]);
    assert Lower([c]) == [c];
  }

  /** Adding an empty Content-Length where there is one keeps that header but forgets the length. */
  lemma {:induction false} AddLengthForgets()
    ensures var rule := Rule("Content-Length", 1, Add, false, false, None, "$n", ContentLength);
            var st := With("Content-Length", "7").(contentLength := 7);
            Handle(rule, "", st) == (st.(contentLength := -1), true) && !LengthEffective(rule, "", st.entries)
  {
    hide ParseSize, Lower, FirstValue, Coherent, Keys;
    WithOne("Content-Length", "7");
  }

  /** Clearing "ra*" leaves the field of Range behind, and a Range that is set then is not in the list. */
  lemma {:induction false} PrefixClearLosesSet()
    ensures var clear := Rule("ra*", 1, Clear, true, false, None, "", Generic);
            var rule := Rule("Range", 1, Set, false, false, None, "$r", Builtin);
            var st := With("Range", "bytes=0-9");
            var st' := Handle(clear, "", st).0;
            && Coherent(st) && !Harmless(clear, "", st) && !Coherent(st')
            && Handle(rule, "bytes=0-1", st') == (st', true) && st'.entries == []
  {
    hide *;
    RangeIsCovered();
    assert "ra" + "*" == "ra*";
    PrefixClearLoses("ra", "Range", "bytes=0-9", "bytes=0-1");
  }

  lemma {:induction false} RangeIsCovered()
    ensures HasPrefix("Range", "ra") && HasPrefix(Lower("Range"), "ra")
  {
    assert "Range"[..2] == "Ra" && Lower("Ra") == "ra" == Lower("ra");
    LowerPrefix("Range", 2);
    LowerIdempotent("Ra");
  }

  /** So it is with any prefix of any builtin name. */
  lemma {:induction false} PrefixClearLoses(prefix: string, key: string, value: string, v: string)
    requires HasPrefix(key, prefix) && HasPrefix(Lower(key), prefix) && v != ""
    ensures var clear := Rule(prefix + "*", 1, Clear, true, false, None, "", Generic);
            var rule := Rule(key, 1, Set, false, false, None, "$r", Builtin);
            var st := With(key, value);
            var st' := Handle(clear, "", st).0;
            && Coherent(st) && !Harmless(clear, "", st) && !Coherent(st')
            && Handle(rule, v, st') == (st', true) && st'.entries == []
  {
    hide Lower, Coherent, HasPrefix, FirstValue;
    var clear, st := Rule(prefix + "*", 1, Clear, true, false, None, "", Generic), With(key, value);
    assert clear.Stem() == prefix;
    WithOne(key, value);
    Cleared(clear.RequestTarget(""), st, key);
    var st' := Handle(clear, "", st).0;
    assert st' == st.(entries := [], ids := [], spare := Some(0));
    Wrong(st', Lower(key));
  }

  /** A field that is not null while there is no header. */
  lemma {:induction false} Wrong(st: ReqState, name: string)
    requires st.entries == [] && name in st.fields && st.fields[name].Some?
    ensures !Coherent(st)
  {
  }

  /** A clear that covers the only header. */
  lemma {:induction false} Cleared(t: Target, st: ReqState, key: string)
    requires |st.entries| == |st.ids| == 1 && Keys(st.entries) == [key] && t.Covers(key)
    ensures First(t, Keys(st.entries)) == 0
    ensures Kept(Clear, "", t, Keys(st.entries), st.ids) == [] && Kept(Clear, "", t, Keys(st.entries), st.entries) == []
  {
    assert [key][1..] == [] && st.ids[1..] == [] && st.entries[1..] == [];
  }

  /** Adding a Cookie where there is one, or rewriting one where there is none: the handler would use a variable that
      was never set. */
  lemma {:induction false} AddCookieIsUnset()
    ensures Unset(Rule("Cookie", 1, Rewrite, false, false, None, "$c", Multi), "b=2", [])
    ensures var rule := Rule("Cookie", 1, Add, false, false, None, "$c", Multi);
            var st := With("Cookie", "a=1");
            Unset(rule, "b=2", st.entries) && !Defined(rule, "b=2", st) && OutId(rule, "b=2", st, None) == None
  {
    hide Lower, FirstValue, Coherent;
    WithOne("Cookie", "a=1");
  }

  /** Adding an empty one: the header stays and its field is nulled. */
  lemma {:induction false} AddEmptyCookieNullsField()
    ensures var rule := Rule("Cookie", 1, Add, false, false, None, "$c", Multi);
            var st, name := With("Cookie", "a=1"), Lower("Cookie");
            && Coherent(st) && !Harmless(rule, "", st)
            && Handle(rule, "", st) == (st.(fields := map[name := None]), true) && !Coherent(Handle(rule, "", st).0)
  {
    hide Lower, FirstValue, Coherent, Addressed;
    var rule, st := Rule("Cookie", 1, Add, false, false, None, "$c", Multi), With("Cookie", "a=1");
    WithOne("Cookie", "a=1");
    EditAddsNothing(rule, "", st.entries);
    MultiAgrees(rule, "", st);
    assert Applied(rule, "", st) == st;
    assert NullsField(rule, "", st.entries);
    assert st.fields[Lower("Cookie") := None] == map[Lower("Cookie") := None];
    assert Handle(rule, "", st).0 == SetMulti(rule, "", st);
  }

  /** Setting Range where it is there twice writes the first one only. */
  lemma {:induction false} SecondRangeStays()
    ensures var rule := Rule("Range", 1, Set, false, false, None, "$r", Builtin);
            var a, b := Entry(1, "Range", "a", "range"), Entry(1, "Range", "b", "range");
            && !Single(Exact("Range"), [a, b])
            && BuiltinEdit(rule, "x", [a, b]) == [a.(value := "x"), b]
            && EditHeaders(rule, "x", Exact("Range"), AllHeaders([a, b])) == [Header("Range", "x")]
  {
    var a, b := Entry(1, "Range", "a", "range"), Entry(1, "Range", "b", "range");
    assert Keys([a, b]) == ["Range", "Range"];
    assert First(Exact("Range"), ["Range", "Range"]) == 0;
    assert AllHeaders([a, b]) == [Header("Range", "a"), Header("Range", "b")];
    assert Without(Exact("Range"), [Header("Range", "b")]) == [];
  }

  // ---------- builtin headers that are there more than once ----------

  /** No further header of the name is behind the first one. */
  predicate Single(t: Target, s: seq<Entry>) {
    forall j :: First(t, Keys(s)) < j < |s| ==> !t.Covers(s[j].key)
  }

  /** A rule on a single-valued builtin name performs the abstract edit, unless it writes a value into the first of
      several headers: then the others stay. */
  lemma {:induction false} BuiltinRefines(rule: Rule, v: string, s: seq<Entry>)
    requires !rule.wildcard && rule.opcode != Append
    ensures AllHeaders(BuiltinEdit(rule, v, s)) == EditHeaders(rule, v, Exact(rule.key), AllHeaders(s))
       <==> v == "" || rule.opcode == Add || Single(Exact(rule.key), s)
  {
    hide Edit, BuiltinEdit, First, Keys, AllHeaders, EditHeaders;
    var t := Exact(rule.key);
    FirstInRange(t, s);
    DeletionRefines(rule, v, s);
    var f := First(t, Keys(s));
    if f == |s| || v == "" || rule.opcode == Add {
      BuiltinIsEdit(rule, v, s);
      assert f == |s| ==> Single(t, s);
    } else {
      BuiltinInPlace(rule, v, s);
      EditLength(rule, v, s);
      SizeOfAll(Edit(rule, v, s));
      SizeOfAll(s[f := s[f].(hash := rule.hash, value := v)]);
      if Single(t, s) {
        EditInPlace(rule, v, s);
        AllUpdate(s, f, s[f].(hash := rule.hash, value := v), s[f].(value := v));
      }
    }
  }

  lemma {:induction false} SizeOfAll(s: seq<Entry>)
    ensures |AllHeaders(s)| == |s|
  {
  }

  lemma {:induction false} AllUpdate(s: seq<Entry>, f: nat, a: Entry, b: Entry)
    requires f < |s| && a.key == b.key && a.value == b.value
    ensures AllHeaders(s[f := a]) == AllHeaders(s[f := b])
  {
    assert s[f := a] == s[..f] + ([a] + s[f + 1..]) && s[f := b] == s[..f] + ([b] + s[f + 1..]);
    AllConcat(s[..f], [a] + s[f + 1..]);
    AllConcat(s[..f], [b] + s[f + 1..]);
    AllConcat([a], s[f + 1..]);
    AllConcat([b], s[f + 1..]);
  }

  lemma {:induction false} DropLength<X>(t: Target, keys: seq<string>, xs: seq<X>)
    requires |keys| == |xs|
    ensures |Drop(t, keys, xs)| == |xs| <==> forall j :: 0 <= j < |keys| ==> !t.Covers(keys[j])
  {
    if keys != [] {
      DropLength(t, keys[1..], xs[1..]);
      if forall j :: 0 <= j < |keys| - 1 ==> !t.Covers(keys[1..][j]) {
        assert forall j :: 0 < j < |keys| ==> keys[j] == keys[1..][j - 1];
      }
    }
  }

  lemma {:induction false} EditLength(rule: Rule, v: string, s: seq<Entry>)
    requires !rule.wildcard && rule.opcode != Append && rule.opcode != Add && v != ""
             && First(Exact(rule.key), Keys(s)) < |s|
    ensures |Edit(rule, v, s)| == |s| <==> Single(Exact(rule.key), s)
  {
    hide Drop, Placed, First, Keys, Kept;
    var t, keys := Exact(rule.key), Keys(s);
    var p := Placed(rule.opcode, v, t, s);
    FirstInRange(t, s);
    PlacedSize(rule.opcode, v, t, s);
    KeptFirst(rule.opcode, v, t, keys, p);
    var f := First(t, keys);
    DropLength(t, keys[f + 1..], p[f + 1..]);
    KeysAt(s);
    assert forall j :: f < j < |keys| ==> keys[j] == keys[f + 1..][j - f - 1];
  }

  lemma {:induction false} PlacedSize(op: Opcode, v: string, t: Target, s: seq<Entry>)
    ensures |Placed(op, v, t, s)| == |s| == |Keys(s)|
  {
  }

  lemma {:induction false} KeysAt(s: seq<Entry>)
    ensures |Keys(s)| == |s| && forall j :: 0 <= j < |s| ==> Keys(s)[j] == s[j].key
  {
  }

  lemma {:induction false} EditInPlace(rule: Rule, v: string, s: seq<Entry>)
    requires !rule.wildcard && rule.opcode != Append && rule.opcode != Add && v != ""
             && First(Exact(rule.key), Keys(s)) < |s|
    requires Single(Exact(rule.key), s)
    ensures var f := First(Exact(rule.key), Keys(s)); Edit(rule, v, s) == s[f := s[f].(value := v)]
  {
    var t := Exact(rule.key);
    KeptDone(rule.opcode, v, t, Keys(s), Placed(rule.opcode, v, t, s));
  }
}
