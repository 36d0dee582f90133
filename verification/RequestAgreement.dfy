/** When the builtin fields of a request agree with its header list, and what the handlers mean while they do. */
module RequestAgreement {
  import opened Names
  import opened Seqs
  import opened HeaderEdit
  import opened Rules
  import opened RequestEdit
  import opened FieldIndex
  import opened RequestState
  import HostValidator

  /** No builtin name is about to lose its headers behind the back of its field. */
  ghost predicate Untouched<X>(rule: Rule, v: string, fields: map<string, Option<X>>) {
    rule.handler != Generic || rule.opcode == Append || rule.opcode == Add
    || forall b :: b in fields && rule.RequestTarget(v).Covers(b) ==> fields[b] == None
  }

  lemma {:induction false} ApartFromField(rule: Rule, v: string, b: string)
    requires Lower(b) == b && !rule.RequestTarget(v).Covers(b)
    ensures Disjoint(Exact(b), rule.RequestTarget(v))
  {
    forall key: string | Exact(b).Covers(key) ensures !rule.RequestTarget(v).Covers(key) {
      SamePrefix(key, b, rule.Stem());
    }
  }

  lemma {:induction false} GenericField<X>(rule: Rule, v: string, s0: seq<Entry>, l0: seq<X>, s: seq<Entry>, l: seq<X>,
                                           output: Option<X>, out: Option<X>, b: string)
    requires Edited(rule, v, s0, l0, s, l, output, out) && Lower(b) == b && Lower(rule.key) != b
    ensures FirstOf(Exact(b), Keys(s), l)
         == if rule.opcode != Append && rule.opcode != Add && rule.RequestTarget(v).Covers(b) then None
            else FirstOf(Exact(b), Keys(s0), l0)
  {
    var op, t, keys := rule.opcode, rule.RequestTarget(v), Keys(s0);
    OtherField(rule, v, s0, l0, s, l, output, out, b);
    hide Edited, FirstOf, Drop, Keys;
    if op == Append || op == Add {
    } else if t.Covers(b) {
      assert t == Prefix(rule.Stem()) && v == "";
      forall key: string | Exact(b).Covers(key) ensures t.Covers(key) {
        SamePrefix(key, b, rule.Stem());
      }
      if First(t, keys) == |keys| {
        NoneFound(Exact(b), t, keys, l0);
        DropNone(t, keys, l0);
        DropNone(t, keys, keys);
      } else {
        NoneFound(Exact(b), t, keys, l0);
      }
    } else {
      ApartFromField(rule, v, b);
      FirstOfKept(Exact(b), op, v, t, keys, l0);
    }
  }

  /** A generic edit keeps the fields in agreement with the list exactly when no builtin header is cleared by prefix. */
  lemma {:induction false} GenericAgreement<X>(rule: Rule, v: string, fields: map<string, Option<X>>, s0: seq<Entry>,
                                               l0: seq<X>, s: seq<Entry>, l: seq<X>, output: Option<X>, out: Option<X>)
    requires Agrees(fields, s0, l0) && Edited(rule, v, s0, l0, s, l, output, out)
    requires Admissible(rule, fields.Keys) && rule.handler == Generic
    requires forall b :: b in fields ==> Lower(b) == b
    ensures Agrees(fields, s, l) <==> Untouched(rule, v, fields)
  {
    hide Edited, FirstOf, Keys;
    assert |s| == |l| by { EditedSizes(rule, v, s0, l0, s, l, output, out); }
    forall b | b in fields
      ensures fields[b] == FirstOf(Exact(b), Keys(s), l)
         <==> rule.opcode == Append || rule.opcode == Add || !rule.RequestTarget(v).Covers(b) || fields[b] == None
    {
      GenericField(rule, v, s0, l0, s, l, output, out, b);
    }
  }

  lemma {:induction false} EditedSizes<X>(rule: Rule, v: string, s0: seq<Entry>, l0: seq<X>, s: seq<Entry>, l: seq<X>,
                                          output: Option<X>, out: Option<X>)
    requires Edited(rule, v, s0, l0, s, l, output, out)
    ensures |s| == |l| && |s0| == |l0|
  {
  }

  /** An edit through the field of its own name keeps all fields in agreement with the list. */
  lemma {:induction false} OwnAgreement<X>(rule: Rule, v: string, fields: map<string, Option<X>>, s0: seq<Entry>,
                                           l0: seq<X>, s: seq<Entry>, l: seq<X>, output: Option<X>, out: Option<X>)
    requires Agrees(fields, s0, l0) && Edited(rule, v, s0, l0, s, l, output, out)
    requires !rule.wildcard && rule.opcode != Append && Lower(rule.key) in fields && fields[Lower(rule.key)] == output
    requires forall b :: b in fields ==> Lower(b) == b
    ensures Agrees(fields[Lower(rule.key) := out], s, l)
  {
    hide Edited, FirstOf, Keys;
    EditedSizes(rule, v, s0, l0, s, l, output, out);
    var key := Lower(rule.key);
    LowerIdempotent(rule.key);
    SameFirst(rule.key, key, Keys(s0), l0);
    SameFirst(rule.key, key, Keys(s), l);
    OwnField(rule, v, s0, l0, s, l, output, out);
    forall b | b in fields && b != key ensures fields[b] == FirstOf(Exact(b), Keys(s), l) {
      GenericField(rule, v, s0, l0, s, l, output, out, b);
      assert !rule.RequestTarget(v).Covers(b);
    }
  }

  lemma {:induction false} SameFirst<X>(a: string, b: string, keys: seq<string>, xs: seq<X>)
    requires SameName(a, b) && |keys| == |xs|
    ensures FirstOf(Exact(a), keys, xs) == FirstOf(Exact(b), keys, xs)
  {
    FirstIs(Exact(a), keys, First(Exact(b), keys));
  }

  /** Values and hashes do not matter to the fields. */
  lemma {:induction false} InPlaceAgreement<X>(fields: map<string, Option<X>>, s: seq<Entry>, l: seq<X>, f: nat,
                                               e: Entry)
    requires Agrees(fields, s, l) && f < |s| && e.key == s[f].key
    ensures Agrees(fields, s[f := e], l)
  {
    KeysUpdate(s, f, e);
  }

  /** The edit by a rule on a single-valued builtin name: a header that exists gets the value and the hash in place. */
  function BuiltinEdit(rule: Rule, v: string, s: seq<Entry>): seq<Entry> {
    var f := First(Exact(rule.key), Keys(s));
    if f < |s| && v != "" && rule.opcode != Add then s[f := s[f].(hash := rule.hash, value := v)]
    else Edit(rule, v, s)
  }

  lemma {:induction false} BuiltinIsEdit(rule: Rule, v: string, s: seq<Entry>)
    requires First(Exact(rule.key), Keys(s)) == |s| || rule.opcode == Add || v == ""
    ensures BuiltinEdit(rule, v, s) == Edit(rule, v, s)
  {
  }

  lemma {:induction false} BuiltinInPlace(rule: Rule, v: string, s: seq<Entry>)
    requires First(Exact(rule.key), Keys(s)) < |s| && v != "" && rule.opcode != Add
    ensures var f := First(Exact(rule.key), Keys(s));
            BuiltinEdit(rule, v, s) == s[f := s[f].(hash := rule.hash, value := v)]
  {
  }

  lemma {:induction false} EditAddsNothing(rule: Rule, v: string, s: seq<Entry>)
    requires rule.opcode == Add && !rule.wildcard && First(Exact(rule.key), Keys(s)) < |s|
    ensures Edit(rule, v, s) == s
  {
  }

  lemma {:induction false} EditedEdit<X>(rule: Rule, v: string, s0: seq<Entry>, l0: seq<X>, s: seq<Entry>, l: seq<X>,
                                         output: Option<X>, out: Option<X>)
    requires Edited(rule, v, s0, l0, s, l, output, out)
    ensures s == Edit(rule, v, s0)
  {
  }

  lemma {:induction false} DropUpdate<X>(t: Target, keys: seq<string>, xs: seq<X>, f: nat, x: X)
    requires |keys| == |xs| && f < |keys| && t.Covers(keys[f])
    ensures Drop(t, keys, xs[f := x]) == Drop(t, keys, xs)
  {
    if 0 < f {
      assert xs[f := x][1..] == xs[1..][f - 1 := x];
      DropUpdate(t, keys[1..], xs[1..], f - 1, x);
    } else {
      assert xs[f := x][1..] == xs[1..];
    }
  }

  /** What was written into a header that is then deleted does not matter. */
  lemma {:induction false} ClearedEdit(rule: Rule, s: seq<Entry>, f: nat, e: Entry)
    requires !rule.wildcard && rule.opcode != Append && rule.opcode != Add
    requires f == First(Exact(rule.key), Keys(s)) < |s| && e.key == s[f].key
    ensures Edit(rule, "", s[f := e]) == BuiltinEdit(rule, "", s)
  {
    KeysUpdate(s, f, e);
    DropUpdate(Exact(rule.key), Keys(s), s, f, e);
  }


  // ---------- agreement of a whole request ----------

  /** Addresses are in order, and every builtin field agrees with the list. */
  ghost predicate Coherent(st: ReqState) {
    Addressed(st) && (forall b :: b in st.fields ==> Lower(b) == b) && Agrees(st.fields, st.entries, st.ids)
  }

  lemma {:induction false} AppliedIsEdited(rule: Rule, v: string, st: ReqState, output: Option<nat>)
    requires |st.ids| == |st.entries|
    ensures var st' := Applied(rule, v, st);
            Edited(rule, v, st.entries, st.ids, st'.entries, st'.ids, output, OutId(rule, v, st, output))
  {
    var op, t := rule.opcode, rule.RequestTarget(v);
    KeptSizes(op, v, t, st.entries, st.ids);
    if Creates(op, v, t, Keys(st.entries)) {
      CreatesKeeps(op, v, t, st.entries);
    }
  }

  /** Through its own field: all fields agree afterwards. */
  lemma {:induction false} ThroughAgrees(rule: Rule, v: string, st: ReqState)
    requires Coherent(st) && !rule.wildcard && rule.opcode != Append && Lower(rule.key) in st.fields
    ensures Coherent(AppliedThrough(rule, v, st))
  {
    hide Applied, OutId, Agrees, Edited, Addressed;
    var output := st.fields[Lower(rule.key)];
    SoundSizes(st);
    ThroughSound(rule, v, st);
    AppliedIsEdited(rule, v, st, output);
    AppliedKeeps(rule, v, st);
    var st' := Applied(rule, v, st);
    OwnAgreement(rule, v, st.fields, st.entries, st.ids, st'.entries, st'.ids, output, OutId(rule, v, st, output));
  }

  /** While the fields agree, a field holds the address of the first header of its name. */
  lemma {:induction false} FieldIsFirst(key: string, st: ReqState)
    requires Coherent(st) && Lower(key) in st.fields
    ensures var f := First(Exact(key), Keys(st.entries));
            && f <= |st.entries| == |st.ids| == |Keys(st.entries)|
            && st.Field(Lower(key)) == if f < |st.ids| then Some(st.ids[f]) else None
  {
    LowerIdempotent(key);
    SameFirst(key, Lower(key), Keys(st.entries), st.ids);
  }

  lemma {:induction false} PositionIs(ids: seq<nat>, k: nat)
    requires NoDup(ids) && k < |ids|
    ensures PositionOf(ids, ids[k]) == k
  {
  }

  /** Then the handler of the builtin names does what it means, and the fields agree afterwards. */
  lemma {:induction false} BuiltinAgrees(rule: Rule, v: string, st: ReqState)
    requires Coherent(st) && !rule.wildcard && rule.opcode != Append && Lower(rule.key) in st.fields
    ensures Coherent(SetBuiltin(rule, v, st)) && SetBuiltin(rule, v, st).entries == BuiltinEdit(rule, v, st.entries)
  {
    hide Applied, AppliedThrough, OutId, Agrees, Edited, Edit, BuiltinEdit, First, Keys, PositionOf, Lower;
    var s, f := st.entries, First(Exact(rule.key), Keys(st.entries));
    FieldIsFirst(rule.key, st);
    if f == |s| {
      BuiltinIsEdit(rule, v, s);
      ThroughAgrees(rule, v, st);
      ThroughEntries(rule, v, st);
    } else if rule.opcode == Add {
      BuiltinIsEdit(rule, v, s);
      EditAddsNothing(rule, v, s);
    } else {
      PositionIs(st.ids, f);
      var e := s[f].(hash := if v == "" then 0 else rule.hash, value := v);
      InPlaceAgreement(st.fields, s, st.ids, f, e);
      if v == "" {
        var st' := Write(st, st.ids[f], 0, "");
        ClearedEdit(rule, s, f, e);
        ThroughAgrees(rule, v, st');
        ThroughEntries(rule, v, st');
      } else {
        BuiltinInPlace(rule, v, s);
      }
    }
  }

  lemma {:induction false} ThroughEntries(rule: Rule, v: string, st: ReqState)
    ensures AppliedThrough(rule, v, st).entries == Edit(rule, v, st.entries)
  {
    AppliedKeeps(rule, v, st);
  }

  /** A multi-valued name is added with an empty value while it has a header: its field is nulled and the header
      stays. */
  predicate NullsField(rule: Rule, v: string, s: seq<Entry>) {
    rule.opcode == Add && v == "" && First(Exact(rule.key), Keys(s)) < |s|
  }

  lemma {:induction false} MultiAgrees(rule: Rule, v: string, st: ReqState)
    requires Coherent(st) && !rule.wildcard && rule.opcode != Append && Lower(rule.key) in st.fields && !st.badRequest
    requires !Unset(rule, v, st.entries)
    ensures Coherent(SetMulti(rule, v, st)) <==> !NullsField(rule, v, st.entries)
    ensures SetMulti(rule, v, st).entries == Edit(rule, v, st.entries)
  {
    hide Agrees, Edited, Edit, First, Keys, Lower, Applied, OutId;
    var name, st', f := Lower(rule.key), SetMulti(rule, v, st), First(Exact(rule.key), Keys(st.entries));
    FieldIsFirst(rule.key, st);
    MultiSound(rule, v, st);
    AppliedKeeps(rule, v, st);
    var output := st.fields[name];
    AppliedIsEdited(rule, v, st, output);
    var out := OutId(rule, v, st, output);
    OwnAgreement(rule, v, st.fields, st.entries, st.ids, st'.entries, st'.ids, output, out);
    MultiOut(rule, v, st);
    if NullsField(rule, v, st.entries) {
      FieldDiffers(name, st.fields[name := out], st'.fields, st'.entries, st'.ids);
    }
  }

  /** What the field of a multi-valued name gets, compared with what the edit through it would leave there. */
  lemma {:induction false} MultiOut(rule: Rule, v: string, st: ReqState)
    requires Coherent(st) && !rule.wildcard && rule.opcode != Append && Lower(rule.key) in st.fields
             && !Unset(rule, v, st.entries)
    ensures var out := OutId(rule, v, st, st.fields[Lower(rule.key)]);
            if NullsField(rule, v, st.entries) then out.Some? else out == if v == "" then None
                else OutId(rule, v, st, None)
  {
    hide Agrees, Addressed, Lower, Keys, First;
    FieldIsFirst(rule.key, st);
  }

  /** Two contents of one field cannot both agree. */
  lemma {:induction false} FieldDiffers<X>(name: string, a: map<string, Option<X>>, b: map<string, Option<X>>,
                                           s: seq<Entry>, l: seq<X>)
    requires name in a && name in b && a[name] != b[name] && Agrees(a, s, l)
    ensures !Agrees(b, s, l)
  {
  }

  /** A rule leaves a field wrong only if it deletes a builtin header by prefix, or nulls the field of a multi-valued
      name whose header stays. */
  ghost predicate Harmless(rule: Rule, v: string, st: ReqState) {
    match rule.handler
    case Generic => Untouched(rule, v, st.fields)
    case Multi => st.badRequest || !NullsField(rule, v, st.entries)
    case _ => true
  }

  /** What a handler does to the headers while the fields agree. It does nothing if it fails. */
  function Meaning(rule: Rule, v: string, st: ReqState): seq<Entry> {
    match rule.handler
    case Generic => Edit(rule, v, st.entries)
    case Multi => if st.badRequest then st.entries else Edit(rule, v, st.entries)
    case _ => if Handle(rule, v, st).1 then BuiltinEdit(rule, v, st.entries) else st.entries
  }

  /** While the fields agree, a handler does to the headers what the rule means, and the fields agree afterwards exactly
      if the rule is harmless. */
  lemma {:induction false} HandleAgrees(rule: Rule, v: string, st: ReqState)
    requires Coherent(st) && Admissible(rule, st.fields.Keys) && Defined(rule, v, st)
    ensures Coherent(Handle(rule, v, st).0) <==> Harmless(rule, v, st)
    ensures Handle(rule, v, st).0.entries == Meaning(rule, v, st) && Handle(rule, v, st).0.fields.Keys == st.fields.Keys
  {
    hide Applied, OutId, SetBuiltin, SetMulti, Edit, BuiltinEdit, Edited, Agrees, Addressed, Untouched, NullsField,
        Unset, ParseSize;
    HandleFields(rule, v, st);
    match rule.handler {
      case Generic =>
        var st' := Applied(rule, v, st);
        AppliedKeeps(rule, v, st);
        AppliedSound(rule, v, st);
        SoundSizes(st);
        AppliedIsEdited(rule, v, st, None);
        GenericAgreement(rule, v, st.fields, st.entries, st.ids, st'.entries, st'.ids, None, OutId(rule, v, st, None));
      case Multi =>
        if st.badRequest {
          BadRequestKeeps(rule, v, st);
        } else {
          MultiAgrees(rule, v, st);
        }
      case _ =>
        forall server, n
          ensures var st1 := st.(server := server, contentLength := n);
                  Coherent(SetBuiltin(rule, v, st1))
                      && SetBuiltin(rule, v, st1).entries == BuiltinEdit(rule, v, st.entries)
        {
          DerivedKeep(st, server, n);
          BuiltinAgrees(rule, v, st.(server := server, contentLength := n));
        }
        assert st == st.(server := st.server, contentLength := st.contentLength);
    }
  }

  lemma {:induction false} BadRequestKeeps(rule: Rule, v: string, st: ReqState)
    requires st.badRequest
    ensures SetMulti(rule, v, st) == st
  {
  }

  lemma {:induction false} DerivedKeep(st: ReqState, server: string, n: int)
    requires Coherent(st)
    ensures Coherent(st.(server := server, contentLength := n))
  {
  }

  lemma {:induction false} SoundSizes(st: ReqState)
    requires Addressed(st)
    ensures |st.ids| == |st.entries|
  {
  }

  lemma {:induction false} HandleFields(rule: Rule, v: string, st: ReqState)
    requires Admissible(rule, st.fields.Keys)
    ensures Handle(rule, v, st).0.fields.Keys == st.fields.Keys
  {
    hide SetBuiltin, SetMulti, Applied, ParseSize, HostValidator.Normalize;
    AppliedKeeps(rule, v, st);
    MultiFields(rule, v, st);
    forall server, n ensures SetBuiltin(rule, v, st.(server := server, contentLength := n)).fields.Keys
        == st.fields.Keys {
      BuiltinFields(rule, v, st.(server := server, contentLength := n));
    }
    assert st == st.(server := st.server, contentLength := st.contentLength);
  }

  lemma {:induction false} MultiFields(rule: Rule, v: string, st: ReqState)
    ensures SetMulti(rule, v, st).fields.Keys == st.fields.Keys
  {
    hide Applied, OutId;
    AppliedKeeps(rule, v, st);
  }

  lemma {:induction false} BuiltinFields(rule: Rule, v: string, st: ReqState)
    ensures SetBuiltin(rule, v, st).fields.Keys == st.fields.Keys
  {
    hide Applied, OutId, PositionOf;
    AppliedKeeps(rule, v, st);
    var f := st.Field(Lower(rule.key));
    if f.Some? {
      AppliedKeeps(rule, v, Write(st, f.value, 0, ""));
    }
  }

  // ---------- one name at a time ----------

  /** The field of a builtin name agrees with the list. */
  ghost predicate Right(b: string, st: ReqState) {
    && Addressed(st) && b in st.fields && Lower(b) == b
    && st.fields[b] == FirstOf(Exact(b), Keys(st.entries), st.ids)
  }

  /** The request without its other fields. */
  function Only(b: string, st: ReqState): ReqState
    requires b in st.fields
  {
    st.(fields := map[b := st.fields[b]])
  }

  lemma {:induction false} OnlyCoherent(b: string, st: ReqState)
    requires b in st.fields && Addressed(st) && Lower(b) == b
    ensures Coherent(Only(b, st)) <==> Right(b, st)
  {
  }

  /** An edit does not look at the fields. */
  lemma {:induction false} FieldsAside(rule: Rule, v: string, st: ReqState, fields: map<string, Option<nat>>)
    ensures var st1 := st.(fields := fields);
            && Applied(rule, v, st1) == Applied(rule, v, st).(fields := fields)
            && forall output :: OutId(rule, v, st1, output) == OutId(rule, v, st, output)
  {
    hide Edit, Kept;
  }

  lemma {:induction false} ThroughOnly(rule: Rule, v: string, st: ReqState)
    requires Lower(rule.key) in st.fields
    ensures var b, st' := Lower(rule.key), AppliedThrough(rule, v, st);
            b in st'.fields && AppliedThrough(rule, v, Only(b, st)) == Only(b, st')
  {
    hide Applied, OutId;
    var b := Lower(rule.key);
    FieldsAside(rule, v, st, Only(b, st).fields);
    AppliedKeeps(rule, v, st);
  }

  /** A handler does not look at the fields of other names. */
  lemma {:induction false} BuiltinOnly(rule: Rule, v: string, st: ReqState)
    requires Lower(rule.key) in st.fields
    ensures var b, st' := Lower(rule.key), SetBuiltin(rule, v, st);
            b in st'.fields && SetBuiltin(rule, v, Only(b, st)) == Only(b, st')
  {
    hide AppliedThrough, PositionOf, Lower;
    ThroughOnly(rule, v, st);
    var f := st.fields[Lower(rule.key)];
    if f.Some? {
      ThroughOnly(rule, v, Write(st, f.value, 0, ""));
    }
  }

  lemma {:induction false} MultiOnly(rule: Rule, v: string, st: ReqState)
    requires Lower(rule.key) in st.fields
    ensures var b, st' := Lower(rule.key), SetMulti(rule, v, st);
            b in st'.fields && SetMulti(rule, v, Only(b, st)) == Only(b, st')
  {
    hide Applied, OutId, Lower;
    var b := Lower(rule.key);
    FieldsAside(rule, v, st, Only(b, st).fields);
  }

  lemma {:induction false} HandleOnly(rule: Rule, v: string, st: ReqState)
    requires Lower(rule.key) in st.fields && rule.handler != Generic
    ensures var b, st', ok := Lower(rule.key), Handle(rule, v, st).0, Handle(rule, v, st).1;
            b in st'.fields && Handle(rule, v, Only(b, st)) == (Only(b, st'), ok)
  {
    hide SetBuiltin, SetMulti, Lower, ParseSize, HostValidator.Normalize;
    MultiOnly(rule, v, st);
    forall server, n
      ensures var b, st1 := Lower(rule.key), st.(server := server, contentLength := n);
              b in SetBuiltin(rule, v, st1).fields
                  && SetBuiltin(rule, v, Only(b, st1)) == Only(b, SetBuiltin(rule, v, st1))
    {
      BuiltinOnly(rule, v, st.(server := server, contentLength := n));
    }
    assert st == st.(server := st.server, contentLength := st.contentLength);
  }

  /** A rule leaves the field of a name wrong only if it deletes its headers by prefix, or nulls it while one stays. */
  ghost predicate HarmlessTo(b: string, rule: Rule, v: string, st: ReqState) {
    match rule.handler
    case Generic =>
      rule.opcode == Append || rule.opcode == Add || !rule.RequestTarget(v).Covers(b) || st.Field(b) == None
    case Multi => Lower(rule.key) != b || st.badRequest || !NullsField(rule, v, st.entries)
    case _ => true
  }

  /** Whatever state the other fields are in, the field of a name that is right stays right exactly if the rule is
      harmless to it. */
  lemma {:induction false} HandleKeepsRight(b: string, rule: Rule, v: string, st: ReqState)
    requires Right(b, st) && Admissible(rule, st.fields.Keys) && Defined(rule, v, st)
    ensures Right(b, Handle(rule, v, st).0) <==> HarmlessTo(b, rule, v, st)
  {
    hide Applied, OutId, SetBuiltin, SetMulti, Edit, Edited, Agrees, Addressed, NullsField, Unset, ParseSize;
    HandleSound(rule, v, st);
    HandleFields(rule, v, st);
    if Lower(rule.key) == b {
      OnlyCoherent(b, st);
      HandleAgrees(rule, v, Only(b, st));
      HandleOnly(rule, v, st);
      OnlyCoherent(b, Handle(rule, v, st).0);
    } else {
      OtherStays(b, rule, v, st);
    }
  }

  lemma {:induction false} OtherStays(b: string, rule: Rule, v: string, st: ReqState)
    requires Right(b, st) && Admissible(rule, st.fields.Keys) && Lower(rule.key) != b
    ensures var st' := Handle(rule, v, st).0;
            && Addressed(st') && b in st'.fields
            && (st'.fields[b] == FirstOf(Exact(b), Keys(st'.entries), st'.ids) <==> HarmlessTo(b, rule, v, st))
  {
    hide Applied, OutId, SetBuiltin, SetMulti, FirstOf, Addressed, ParseSize, HostValidator.Normalize, Keys;
    HandleSound(rule, v, st);
    HandleFields(rule, v, st);
    SoundSizes(st);
    SoundSizes(Handle(rule, v, st).0);
    if rule.handler == Generic {
      AppliedOther(b, rule, v, st);
      AppliedKeeps(rule, v, st);
    } else if rule.handler == Multi {
      MultiOther(b, rule, v, st);
    } else {
      forall server, n
        ensures var st' := SetBuiltin(rule, v, st.(server := server, contentLength := n));
                && |st'.entries| == |st'.ids| && b in st'.fields
                && st'.fields[b] == FirstOf(Exact(b), Keys(st'.entries), st'.ids)
      {
        SoundSizes(st);
        BuiltinSound(rule, v, st);
        SoundSizes(SetBuiltin(rule, v, st.(server := server, contentLength := n)));
        BuiltinOther(b, rule, v, st.(server := server, contentLength := n));
      }
      assert st == st.(server := st.server, contentLength := st.contentLength);
    }
  }

  /** The first header of a name after an edit about another one. */
  lemma {:induction false} AppliedOther(b: string, rule: Rule, v: string, st: ReqState)
    requires |st.ids| == |st.entries| && Lower(rule.key) != b && Lower(b) == b
    ensures var st' := Applied(rule, v, st);
            && |st'.ids| == |st'.entries|
            && FirstOf(Exact(b), Keys(st'.entries), st'.ids) ==
                 if rule.opcode != Append && rule.opcode != Add && rule.RequestTarget(v).Covers(b) then None
                 else FirstOf(Exact(b), Keys(st.entries), st.ids)
  {
    hide Applied, Edited, OutId, FirstOf;
    var st' := Applied(rule, v, st);
    AppliedIsEdited(rule, v, st, None);
    EditedSizes(rule, v, st.entries, st.ids, st'.entries, st'.ids, None, OutId(rule, v, st, None));
    GenericField(rule, v, st.entries, st.ids, st'.entries, st'.ids, None, OutId(rule, v, st, None), b);
  }

  lemma {:induction false} MultiOther(b: string, rule: Rule, v: string, st: ReqState)
    requires Right(b, st) && Lower(rule.key) != b && !rule.wildcard
    ensures var st' := SetMulti(rule, v, st);
            && |st'.ids| == |st'.entries| && b in st'.fields
            && st'.fields[b] == FirstOf(Exact(b), Keys(st'.entries), st'.ids)
  {
    hide Applied, OutId, FirstOf;
    AppliedOther(b, rule, v, st);
    AppliedKeeps(rule, v, st);
  }

  lemma {:induction false} BuiltinOther(b: string, rule: Rule, v: string, st: ReqState)
    requires |st.ids| == |st.entries| && Lower(rule.key) != b && Lower(b) == b && !rule.wildcard && b in st.fields
    requires st.fields[b] == FirstOf(Exact(b), Keys(st.entries), st.ids)
    ensures var st' := SetBuiltin(rule, v, st);
            && |st'.ids| == |st'.entries| && b in st'.fields
            && st'.fields[b] == FirstOf(Exact(b), Keys(st'.entries), st'.ids)
  {
    hide Applied, OutId, FirstOf, PositionOf, Keys;
    AppliedOther(b, rule, v, st);
    AppliedKeeps(rule, v, st);
    var f := st.Field(Lower(rule.key));
    if f.Some? {
      WriteNames(st, f.value, 0, "");
      WriteNames(st, f.value, rule.hash, v);
      AppliedOther(b, rule, v, Write(st, f.value, 0, ""));
      AppliedKeeps(rule, v, Write(st, f.value, 0, ""));
    }
  }

  /** Writing a header changes no name. */
  lemma {:induction false} WriteNames(st: ReqState, id: nat, hash: nat, v: string)
    ensures var st' := Write(st, id, hash, v);
            Keys(st'.entries) == Keys(st.entries) && |st'.entries| == |st.entries| && st'.ids == st.ids
                && st'.fields == st.fields
  {
    hide PositionOf;
    var k := PositionOf(st.ids, id);
    if k < |st.entries| {
      KeysUpdate(st.entries, k, st.entries[k].(hash := hash, value := v));
    }
  }
}
