/** The edit of the request header list, and what holds while its scan runs, on values. */
module RequestEdit {
  import opened Seqs
  import opened HeaderEdit
  import opened Rules

  /** The list with the value put into the first covered header, if the edit does that. */
  function Placed(op: Opcode, v: string, t: Target, s: seq<Entry>): (r: seq<Entry>)
    ensures |r| == |s| && Keys(r) == Keys(s)
  {
    if Replaces(op, v, t, Keys(s)) then
      var f := First(t, Keys(s));
      KeysUpdate(s, f, s[f].(value := v));
      s[f := s[f].(value := v)]
    else
      s
  }

  /** The headers an edit leaves, without the one it may create. */
  function Survivors(op: Opcode, v: string, t: Target, s: seq<Entry>): seq<Entry> {
    Kept(op, v, t, Keys(s), Placed(op, v, t, s))
  }

  /** The whole edit of a request header list by a rule that goes through the generic handler. */
  function Edit(rule: Rule, v: string, s: seq<Entry>): seq<Entry> {
    var t := rule.RequestTarget(v);
    Survivors(rule.opcode, v, t, s) + if Creates(rule.opcode, v, t, Keys(s)) then [NewEntry(rule, v)] else []
  }

  /** What is left to do on `s` at `l` leads to the same list as doing the whole edit on `s0` at `l0`. */
  ghost predicate SameOutcome<X>(op: Opcode, v: string, t: Target, s0: seq<Entry>, l0: seq<X>, s: seq<Entry>,
                                 l: seq<X>) {
    && |s| == |l| && |s0| == |l0|
    && Kept(op, v, t, Keys(s), l) == Kept(op, v, t, Keys(s0), l0)
    && Survivors(op, v, t, s) == Survivors(op, v, t, s0)
  }

  /** No header has got the value yet: nothing covered is among the first `k`, and either nothing has changed, or
      a covered header was deleted because the value is empty. */
  ghost predicate Unmatched<X>(op: Opcode, v: string, t: Target, s0: seq<Entry>, l0: seq<X>, s: seq<Entry>, l: seq<X>,
                               k: nat, output: Option<X>, out: Option<X>)
  {
    && k <= |s|
    && (forall j :: 0 <= j < k ==> !t.Covers(Keys(s)[j]))
    && ((s == s0 && l == l0 && out == output) || (op != Add && v == "" && First(t, Keys(s0)) < |s0| && out == None))
  }

  /** The header at address `m`, the first covered one from the start, has the value, and it is the only covered one
      among the first `k`. */
  ghost predicate Matched<X>(op: Opcode, v: string, t: Target, s0: seq<Entry>, l0: seq<X>, s: seq<Entry>, l: seq<X>,
                             k: nat, m: X, out: Option<X>)
    requires |s| == |l| && |s0| == |l0|
  {
    && op != Add && v != "" && k <= |s|
    && var f := First(t, Keys(s));
       && f == First(t, Keys(s0)) && f < |s| && f < |s0| && l[f] == m == l0[f] && s[f].value == v
       && (forall j :: 0 <= j < k && t.Covers(Keys(s)[j]) ==> j == f)
       && (f < k ==> out == Some(m))
  }

  /** A scan in progress: from the headers `s0` at the addresses `l0` it has come to `s` at `l` and has looked at the
      first `k` of these since it last started over. `matched` is the address that got the value, `out` the field that
      the caller passed in as `output`. */
  ghost predicate Progress<X>(op: Opcode, v: string, t: Target, s0: seq<Entry>, l0: seq<X>, s: seq<Entry>, l: seq<X>,
                              k: nat, matched: Option<X>, output: Option<X>, out: Option<X>)
  {
    && op != Append && |s| == |l| && |s0| == |l0|
    && SameOutcome(op, v, t, s0, l0, s, l)
    && match matched {
         case None => Unmatched(op, v, t, s0, l0, s, l, k, output, out)
         case Some(m) => Matched(op, v, t, s0, l0, s, l, k, m, out)
       }
  }

  /** What a whole scan does. `found` says that the rule is done: it added nothing because the header exists, or a
      header has got the value. The field is left alone, or is null, or has the address of the first covered header. */
  ghost predicate Scanned<X>(op: Opcode, v: string, t: Target, s0: seq<Entry>, l0: seq<X>, s: seq<Entry>, l: seq<X>,
                             found: bool, output: Option<X>, out: Option<X>)
  {
    && |s0| == |l0| && s == Survivors(op, v, t, s0) && l == Kept(op, v, t, Keys(s0), l0)
    && var f := First(t, Keys(s0));
       && (found <==> f < |s0| && (op == Add || v != ""))
       && out == if f == |s0| || op == Add then output else if v == "" then None else Some(l0[f])
  }

  lemma {:induction false} ScanStarts<X>(op: Opcode, v: string, t: Target, s: seq<Entry>, l: seq<X>, output: Option<X>)
    requires |s| == |l| && op != Append
    ensures Progress(op, v, t, s, l, s, l, 0, None, output, output)
  {
  }

  lemma {:induction false} SkipStep<X>(op: Opcode, v: string, t: Target, s0: seq<Entry>, l0: seq<X>, s: seq<Entry>,
                                       l: seq<X>, k: nat, matched: Option<X>, output: Option<X>, out: Option<X>)
    requires Progress(op, v, t, s0, l0, s, l, k, matched, output, out)
    requires k < |s| && !t.Covers(s[k].key)
    ensures Progress(op, v, t, s0, l0, s, l, k + 1, matched, output, out)
  {
    hide SameOutcome, First;
  }

  lemma {:induction false} PlacedRemoveAt(op: Opcode, v: string, t: Target, s: seq<Entry>, k: nat)
    requires k < |s| && (v == "" || First(t, Keys(s)) < k)
    ensures Placed(op, v, t, RemoveAt(s, k)) == RemoveAt(Placed(op, v, t, s), k)
  {
    hide Placed, First, Keys;
    KeysRemoveAt(s, k);
    PlacedAt(op, v, t, s);
    PlacedAt(op, v, t, RemoveAt(s, k));
    if v != "" {
      SizeOfKeys(s);
      FirstRemoveAt(t, Keys(s), k);
    }
  }

  lemma {:induction false} SizeOfKeys(s: seq<Entry>)
    ensures |Keys(s)| == |s|
  {
  }

  lemma {:induction false} PlacedAt(op: Opcode, v: string, t: Target, s: seq<Entry>)
    ensures var f := First(t, Keys(s));
      Placed(op, v, t, s) == if op != Append && op != Add && v != "" && f < |s| then s[f := s[f].(value := v)] else s
  {
  }

  lemma {:induction false} DeleteSameOutcome<X>(op: Opcode, v: string, t: Target, s0: seq<Entry>, l0: seq<X>,
                                                s: seq<Entry>, l: seq<X>, k: nat)
    requires SameOutcome(op, v, t, s0, l0, s, l) && op != Append && op != Add
    requires k < |s| && t.Covers(s[k].key) && (v == "" || First(t, Keys(s)) < k)
    ensures SameOutcome(op, v, t, s0, l0, RemoveAt(s, k), RemoveAt(l, k))
  {
    KeysRemoveAt(s, k);
    PlacedRemoveAt(op, v, t, s, k);
    hide Kept, Placed, First, Keys;
    KeptRemoveAt(op, v, t, Keys(s), l, k);
    KeptRemoveAt(op, v, t, Keys(s), Placed(op, v, t, s), k);
  }

  lemma {:induction false} DeleteStep<X>(op: Opcode, v: string, t: Target, s0: seq<Entry>, l0: seq<X>, s: seq<Entry>,
                                         l: seq<X>, k: nat, matched: Option<X>, output: Option<X>, out: Option<X>)
    requires Progress(op, v, t, s0, l0, s, l, k, matched, output, out)
    requires k < |s| && t.Covers(s[k].key) && op != Add
    requires v == "" || (matched.Some? && matched.value != l[k])
    ensures Progress(op, v, t, s0, l0, RemoveAt(s, k), RemoveAt(l, k), 0, matched, output, None)
  {
    hide SameOutcome, First, Keys, RemoveAt;
    FirstAtMost(t, Keys(s), k);
    DeleteSameOutcome(op, v, t, s0, l0, s, l, k);
    if v != "" {
      RemoveBehind(l, First(t, Keys(s)), k);
      RemoveBehind(s, First(t, Keys(s)), k);
      KeysRemoveAt(s, k);
      FirstRemoveAt(t, Keys(s), k);
    }
  }

  /** An add rule that meets a covered header has changed nothing. */
  lemma {:induction false} AddStops<X>(v: string, t: Target, s0: seq<Entry>, l0: seq<X>, s: seq<Entry>, l: seq<X>,
                                       k: nat, matched: Option<X>, output: Option<X>, out: Option<X>)
    requires Progress(Add, v, t, s0, l0, s, l, k, matched, output, out)
    requires k < |s| && t.Covers(s[k].key)
    ensures Scanned(Add, v, t, s0, l0, s, l, true, output, out)
  {
    FirstAtMost(t, Keys(s), k);
  }

  lemma {:induction false} PlacedAgain(op: Opcode, v: string, t: Target, s: seq<Entry>)
    requires Replaces(op, v, t, Keys(s))
    ensures var f := First(t, Keys(s)); var s' := s[f := s[f].(value := v)];
            Keys(s') == Keys(s) && Placed(op, v, t, s') == Placed(op, v, t, s)
  {
    var f := First(t, Keys(s));
    KeysUpdate(s, f, s[f].(value := v));
  }

  lemma {:induction false} PlaceSameOutcome<X>(op: Opcode, v: string, t: Target, s0: seq<Entry>, l0: seq<X>,
                                               s: seq<Entry>, l: seq<X>)
    requires SameOutcome(op, v, t, s0, l0, s, l) && Replaces(op, v, t, Keys(s))
    ensures var f := First(t, Keys(s)); SameOutcome(op, v, t, s0, l0, s[f := s[f].(value := v)], l)
  {
    PlacedAgain(op, v, t, s);
    hide Kept, Placed, First;
  }

  lemma {:induction false} PlaceMatched<X>(op: Opcode, v: string, t: Target, s0: seq<Entry>, l0: seq<X>, s: seq<Entry>,
                                           l: seq<X>, k: nat, s': seq<Entry>)
    requires |s| == |l| && |s0| == |l0| && k < |s| && op != Add && v != ""
    requires First(t, Keys(s)) == k == First(t, Keys(s0)) && k < |s0| && l[k] == l0[k]
    requires |s'| == |s| && Keys(s') == Keys(s) && s'[k].value == v
    ensures Matched(op, v, t, s0, l0, s', l, k + 1, l[k], Some(l[k]))
  {
  }

  lemma {:induction false} PlaceStep<X>(op: Opcode, v: string, t: Target, s0: seq<Entry>, l0: seq<X>, s: seq<Entry>,
                                        l: seq<X>, k: nat, matched: Option<X>, output: Option<X>, out: Option<X>)
    requires Progress(op, v, t, s0, l0, s, l, k, matched, output, out)
    requires k < |s| && t.Covers(s[k].key) && op != Add && v != "" && NoDup(l)
    requires matched == None || matched.value == l[k]
    ensures Progress(op, v, t, s0, l0, s[k := s[k].(value := v)], l, k + 1, Some(l[k]), output, Some(l[k]))
  {
    hide SameOutcome, First, Keys, Placed;
    match matched {
      case None =>
        FirstIs(t, Keys(s), k);
        assert s == s0 && l == l0;
      case Some(m) =>
        assert l[First(t, Keys(s))] == l[k] == l0[First(t, Keys(s))];
        assert First(t, Keys(s)) == k;
    }
    hide NoDup;
    PlaceSameOutcome(op, v, t, s0, l0, s, l);
    PlacedAgain(op, v, t, s);
    PlaceMatched(op, v, t, s0, l0, s, l, k, s[k := s[k].(value := v)]);
    hide Matched, Unmatched;
  }

  lemma {:induction false} PlacedDone(op: Opcode, v: string, t: Target, s: seq<Entry>)
    requires Replaces(op, v, t, Keys(s)) ==> s[First(t, Keys(s))].value == v
    ensures Placed(op, v, t, s) == s
  {
  }

  /** A scan that has come to the end has performed the edit. */
  lemma {:induction false} ScanDone<X>(op: Opcode, v: string, t: Target, s0: seq<Entry>, l0: seq<X>, s: seq<Entry>,
                                       l: seq<X>, matched: Option<X>, output: Option<X>, out: Option<X>)
    requires Progress(op, v, t, s0, l0, s, l, |s|, matched, output, out)
    ensures Scanned(op, v, t, s0, l0, s, l, matched.Some?, output, out)
  {
    assert s == Survivors(op, v, t, s0) && l == Kept(op, v, t, Keys(s0), l0) by {
      hide Kept, Placed, First, Keys;
      KeptDone(op, v, t, Keys(s), l);
      KeptDone(op, v, t, Keys(s), s);
      PlacedDone(op, v, t, s);
    }
    hide Kept, Survivors, SameOutcome, Keys, First;
  }
}
