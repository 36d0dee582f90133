/** What the request handlers do to a request, as a function of its headers, their addresses and the derived fields. */
module RequestState {
  import opened Names
  import opened Seqs
  import opened Decimals
  import opened HeaderEdit
  import opened Rules
  import opened RequestEdit
  import HostValidator

  /** What conditions and values can depend on. `badRequest` says that the response status is already 400. */
  datatype RequestView = RequestView(entries: seq<Entry>, server: string, contentLength: int, badRequest: bool)

  /** A request. Addresses are numbered as they come into use, `used` of them so far; the header at position `k` is at
      address `ids[k]`, and a builtin field is null or holds an address, which may be one that no header is at any more.
      `spare` is the address that the next header gets if it does not get a new one. */
  datatype ReqState = ReqState(entries: seq<Entry>, server: string, contentLength: int, badRequest: bool,
                               ids: seq<nat>, spare: Option<nat>, used: nat, fields: map<string, Option<nat>>) {
    function View(): RequestView {
      RequestView(entries, server, contentLength, badRequest)
    }

    /** The address of the next header. */
    function NewId(): nat {
      if spare.Some? then spare.value else used
    }

    /** The address in the builtin field of a name. */
    function Field(name: string): Option<nat> {
      if name in fields then fields[name] else None
    }
  }

  const MAX_SIZE: nat := 0x7FFF_FFFF_FFFF_FFFF

  /** `ngx_atosz`: digits only, at least one, and no overflow. */
  function ParseSize(v: string): Option<nat> {
    if v != "" && AllDigits(v) && Decimal(v) <= MAX_SIZE then Some(Decimal(v)) else None
  }

  /** By character codes: the sizes are the non-empty strings of digits that denote a number below 2^63. */
  lemma {:induction false} SizeByCode(v: string, n: nat)
    ensures ParseSize(v) == Some(n) <==>
              && v != "" && (forall i :: 0 <= i < |v| ==> 48 <= v[i] as int <= 57)
              && n < 0x8000_0000_0000_0000
              && Decimal(v) == n
  {
    assert forall c: char :: IsDigit(c) <==> 48 <= c as int <= 57;
  }

  // ---------- the set-header helper ----------

  /** What the helper leaves in the variable that it is given, which holds `output`. */
  function OutId(rule: Rule, v: string, st: ReqState, output: Option<nat>): Option<nat> {
    var t, keys := rule.RequestTarget(v), Keys(st.entries);
    var f := First(t, keys);
    if Creates(rule.opcode, v, t, keys) then Some(st.NewId())
    else if f == |keys| || rule.opcode == Add then output
    else if v == "" || f >= |st.ids| then None
    else Some(st.ids[f])
  }

  /** The edit, with the addresses. Headers keep theirs; the address of the last header to go when the list becomes
      empty is the one that the next header gets. */
  function Applied(rule: Rule, v: string, st: ReqState): ReqState {
    var t, keys := rule.RequestTarget(v), Keys(st.entries);
    var edited := st.(entries := Edit(rule, v, st.entries));
    if |st.ids| != |keys| then edited
    else if Creates(rule.opcode, v, t, keys) then
      edited.(ids := st.ids + [st.NewId()], spare := None, used := if st.spare.Some? then st.used else st.used + 1)
    else
      var kept := Kept(rule.opcode, v, t, keys, st.ids);
      edited.(ids := kept, spare := if kept == [] && st.ids != [] then Some(st.ids[|st.ids| - 1]) else st.spare)
  }

  /** The edit through the field of the rule's own name. */
  function AppliedThrough(rule: Rule, v: string, st: ReqState): ReqState {
    var name := Lower(rule.key);
    var edited := Applied(rule, v, st);
    if name in st.fields then edited.(fields := st.fields[name := OutId(rule, v, st, st.fields[name])]) else edited
  }

  // ---------- the handlers ----------

  function PositionOf(ids: seq<nat>, id: nat): (k: nat)
    ensures k <= |ids| && (k < |ids| ==> ids[k] == id)
    ensures forall j :: 0 <= j < k ==> ids[j] != id
  {
    if ids == [] || ids[0] == id then 0 else 1 + PositionOf(ids[1..], id)
  }

  /** Writes the header at an address. If no header is there any more, none changes. */
  function Write(st: ReqState, id: nat, hash: nat, v: string): ReqState {
    var k := PositionOf(st.ids, id);
    if k < |st.entries| && k < |st.ids| then st.(entries := st.entries[k := st.entries[k].(hash := hash, value := v)])
    else st
  }

  /** The handler of the single-valued builtin names. */
  function SetBuiltin(rule: Rule, v: string, st: ReqState): ReqState {
    match st.Field(Lower(rule.key))
    case None => AppliedThrough(rule, v, st)
    case Some(id) =>
      if rule.opcode == Add then st
      else if rule.opcode == Append then AppliedThrough(rule, v, st)
      else if v == "" then AppliedThrough(rule, v, Write(st, id, 0, ""))
      else Write(st, id, rule.hash, v)
  }

  /** The handler of the multi-valued names: the helper is given a local variable, and its contents go into the
      field. */
  function SetMulti(rule: Rule, v: string, st: ReqState): ReqState {
    var name := Lower(rule.key);
    if st.badRequest || name !in st.fields then st
    else Applied(rule, v, st).(fields := st.fields[name := if v == "" then None else OutId(rule, v, st, None)])
  }

  /** The handler that the rule's name selects. It fails on a Host value or a length that is not valid. */
  function Handle(rule: Rule, v: string, st: ReqState): (ReqState, bool) {
    match rule.handler
    case Generic => (Applied(rule, v, st), true)
    case Builtin => (SetBuiltin(rule, v, st), true)
    case ContentType => (SetBuiltin(rule, v, st), true)
    case Multi => (SetMulti(rule, v, st), true)
    case Host =>
      if v == "" then (SetBuiltin(rule, v, st.(server := "")), true)
      else (match HostValidator.Normalize(v)
            case None => (st, false)
            case Some(h) => (SetBuiltin(rule, v, st.(server := h)), true))
    case ContentLength =>
      if v == "" then (SetBuiltin(rule, v, st.(contentLength := -1)), true)
      else (match ParseSize(v)
            case None => (st, false)
            case Some(n) => (SetBuiltin(rule, v, st.(contentLength := n)), true))
  }

  /** The helper returns without setting the local variable of the multi-valued handler, which uses it. */
  predicate Unset(rule: Rule, v: string, s: seq<Entry>) {
    var f := First(Exact(rule.key), Keys(s));
    v != "" && ((rule.opcode == Add && f < |s|) || (rule.opcode == Rewrite && f == |s|))
  }

  /** The handler's behaviour is defined. */
  predicate Defined(rule: Rule, v: string, st: ReqState) {
    rule.handler == Multi && !st.badRequest ==> !Unset(rule, v, st.entries)
  }

  /** A rule as the directive parser leaves it, for the table of builtin names `names` (in lower case): a name of the
      table selects a builtin handler, never as a wildcard and never with append. */
  predicate Admissible(rule: Rule, names: set<string>) {
    && (rule.handler == Generic <==> Lower(rule.key) !in names)
    && (rule.handler != Generic ==> !rule.wildcard && rule.opcode != Append)
  }

  // ---------- addresses ----------

  /** No two headers are at one address, and `spare` is only set while there is no header. */
  ghost predicate Addressed(st: ReqState) {
    && |st.ids| == |st.entries| && NoDup(st.ids) && (forall id :: id in st.ids ==> id < st.used)
    && (st.spare.Some? ==> st.ids == [] && st.spare.value < st.used)
    && (forall b :: b in st.fields && st.fields[b].Some? ==> st.fields[b].value < st.used)
  }

  lemma {:induction false} KeptIn<X>(op: Opcode, v: string, t: Target, keys: seq<string>, xs: seq<X>)
    requires |keys| == |xs| && NoDup(xs)
    ensures NoDup(Kept(op, v, t, keys, xs)) && forall x :: x in Kept(op, v, t, keys, xs) ==> x in xs
  {
    hide Drop, Target.Covers;
    KeptAmong(op, v, t, keys, xs);
    DropDistinct(t, keys, xs);
    var f := First(t, keys);
    if f < |keys| {
      DropAmong(t, keys[f + 1..], xs[f + 1..]);
      DropDistinct(t, keys[f + 1..], xs[f + 1..]);
      NoDupBehind(xs, f + 1, Drop(t, keys[f + 1..], xs[f + 1..]));
    }
  }

  /** What stays in front and some distinct elements from behind it. */
  lemma {:induction false} NoDupBehind<X>(xs: seq<X>, n: nat, back: seq<X>)
    requires NoDup(xs) && n <= |xs| && NoDup(back) && forall x :: x in back ==> x in xs[n..]
    ensures NoDup(xs[..n] + back)
  {
    forall i, j | 0 <= i < n && 0 <= j < |back| ensures xs[i] != back[j] {
      assert back[j] in xs[n..];
    }
  }

  lemma {:induction false} DropDistinct<X>(t: Target, keys: seq<string>, xs: seq<X>)
    requires |keys| == |xs| && NoDup(xs)
    ensures NoDup(Drop(t, keys, xs))
  {
    hide Target.Covers;
    if keys != [] {
      var kept := Drop(t, keys[1..], xs[1..]);
      DropDistinct(t, keys[1..], xs[1..]);
      DropAmong(t, keys[1..], xs[1..]);
      assert xs[0] !in kept;
      assert NoDup([xs[0]] + kept);
    }
  }

  lemma {:induction false} KeptSizes(op: Opcode, v: string, t: Target, s: seq<Entry>, xs: seq<nat>)
    requires |s| == |xs|
    ensures |Kept(op, v, t, Keys(s), xs)| == |Survivors(op, v, t, s)|
  {
    SameSize(op, v, t, Keys(s), xs, Placed(op, v, t, s));
  }

  lemma {:induction false} SameSize<X, Y>(op: Opcode, v: string, t: Target, keys: seq<string>, xs: seq<X>, ys: seq<Y>)
    requires |keys| == |xs| == |ys|
    ensures |Kept(op, v, t, keys, xs)| == |Kept(op, v, t, keys, ys)|
  {
    SameDropSize(t, keys, xs, ys);
    var f := First(t, keys);
    if f < |keys| {
      SameDropSize(t, keys[f + 1..], xs[f + 1..], ys[f + 1..]);
    }
  }

  lemma {:induction false} SameDropSize<X, Y>(t: Target, keys: seq<string>, xs: seq<X>, ys: seq<Y>)
    requires |keys| == |xs| == |ys|
    ensures |Drop(t, keys, xs)| == |Drop(t, keys, ys)|
  {
    if keys != [] {
      SameDropSize(t, keys[1..], xs[1..], ys[1..]);
    }
  }

  lemma {:induction false} AppliedSound(rule: Rule, v: string, st: ReqState)
    requires Addressed(st)
    ensures Addressed(Applied(rule, v, st))
  {
    hide Kept, Survivors, First, NoDup, Creates;
    var op, t, keys := rule.opcode, rule.RequestTarget(v), Keys(st.entries);
    KeptSizes(op, v, t, st.entries, st.ids);
    KeptIn(op, v, t, keys, st.ids);
    if Creates(op, v, t, keys) {
      CreatesKeeps(op, v, t, st.entries);
      SizeOfKeys(st.entries);
      NoDupSnoc(st.ids, st.NewId());
    } else {
      var kept := Kept(op, v, t, keys, st.ids);
      assert kept != [] ==> kept[0] in kept;
      assert |keys| == |st.ids| by { SizeOfKeys(st.entries); }
      assert Edit(rule, v, st.entries) == Survivors(op, v, t, st.entries);
      assert st.ids != [] ==> st.ids[|st.ids| - 1] in st.ids;
    }
  }

  /** An edit that creates a header deletes none. */
  lemma {:induction false} CreatesKeeps(op: Opcode, v: string, t: Target, s: seq<Entry>)
    requires Creates(op, v, t, Keys(s))
    ensures Survivors(op, v, t, s) == s
  {
  }

  lemma {:induction false} WriteSound(st: ReqState, id: nat, hash: nat, v: string)
    requires Addressed(st)
    ensures Addressed(Write(st, id, hash, v))
  {
  }

  lemma {:induction false} OutIdUsed(rule: Rule, v: string, st: ReqState, output: Option<nat>)
    requires Addressed(st) && (output.Some? ==> output.value < st.used)
    ensures var out := OutId(rule, v, st, output); out.Some? ==> out.value < Applied(rule, v, st).used
  {
    hide Kept, Edit;
    if First(rule.RequestTarget(v), Keys(st.entries)) < |st.ids| {
      assert st.ids[First(rule.RequestTarget(v), Keys(st.entries))] in st.ids;
    }
  }

  lemma {:induction false} ThroughSound(rule: Rule, v: string, st: ReqState)
    requires Addressed(st)
    ensures Addressed(AppliedThrough(rule, v, st))
  {
    hide Applied, OutId;
    AppliedSound(rule, v, st);
    AppliedKeeps(rule, v, st);
    OutIdUsed(rule, v, st, st.Field(Lower(rule.key)));
  }

  /** An edit does not touch the fields, and takes no address out of use. */
  lemma {:induction false} AppliedKeeps(rule: Rule, v: string, st: ReqState)
    ensures var st' := Applied(rule, v, st);
            st'.fields == st.fields && st.used <= st'.used && st'.entries == Edit(rule, v, st.entries)
  {
    hide Kept, Edit;
  }

  /** An edit touches nothing but the headers and their addresses. */
  lemma {:induction false} AppliedDerived(rule: Rule, v: string, st: ReqState)
    ensures var st' := Applied(rule, v, st);
            st'.server == st.server && st'.contentLength == st.contentLength && st'.badRequest == st.badRequest
                && st'.fields == st.fields
  {
    hide Edit, Kept;
  }

  /** Every handler keeps the addresses in order. */
  lemma {:induction false} HandleSound(rule: Rule, v: string, st: ReqState)
    requires Addressed(st)
    ensures Addressed(Handle(rule, v, st).0)
  {
    hide Applied, AppliedThrough, OutId, Write, ParseSize, HostValidator.Normalize, Addressed;
    match rule.handler {
      case Generic => AppliedSound(rule, v, st);
      case Multi => MultiSound(rule, v, st);
      case _ =>
        BuiltinSound(rule, v, st);
    }
  }

  lemma {:induction false} MultiSound(rule: Rule, v: string, st: ReqState)
    requires Addressed(st)
    ensures Addressed(SetMulti(rule, v, st))
  {
    hide Applied, OutId;
    AppliedSound(rule, v, st);
    AppliedKeeps(rule, v, st);
    OutIdUsed(rule, v, st, None);
  }

  /** Whatever the derived values are. */
  lemma {:induction false} BuiltinSound(rule: Rule, v: string, st: ReqState)
    requires Addressed(st)
    ensures forall server, n :: Addressed(SetBuiltin(rule, v, st.(server := server, contentLength := n)))
  {
    hide AppliedThrough, Write;
    forall server, n ensures Addressed(SetBuiltin(rule, v, st.(server := server, contentLength := n))) {
      var st' := st.(server := server, contentLength := n);
      ThroughSound(rule, v, st');
      var f := st'.Field(Lower(rule.key));
      if f.Some? {
        WriteSound(st', f.value, 0, "");
        WriteSound(st', f.value, rule.hash, v);
        ThroughSound(rule, v, Write(st', f.value, 0, ""));
      }
    }
  }
}
