/** The builtin fields as an index over the header list: each holds the address of the first header of its name. */
module FieldIndex {
  import opened Names
  import opened HeaderEdit
  import opened Rules
  import opened RequestEdit

  /** The first element whose name is covered. */
  function FirstOf<X>(t: Target, keys: seq<string>, xs: seq<X>): Option<X>
    requires |keys| == |xs|
  {
    var f := First(t, keys);
    if f < |xs| then Some(xs[f]) else None
  }

  /** No name is covered by both. */
  ghost predicate Disjoint(a: Target, b: Target) {
    forall key: string :: a.Covers(key) ==> !b.Covers(key)
  }

  lemma {:induction false} FirstOfDrop<X>(a: Target, t: Target, keys: seq<string>, xs: seq<X>)
    requires |keys| == |xs| && Disjoint(a, t)
    ensures |Drop(t, keys, keys)| == |Drop(t, keys, xs)|
    ensures FirstOf(a, Drop(t, keys, keys), Drop(t, keys, xs)) == FirstOf(a, keys, xs)
  {
    hide FirstOf;
    if keys != [] {
      FirstOfDrop(a, t, keys[1..], xs[1..]);
      FirstOfCons(a, keys[0], keys[1..], xs[0], xs[1..]);
      assert [keys[0]] + keys[1..] == keys && [xs[0]] + xs[1..] == xs;
      var ks, ys := Drop(t, keys[1..], keys[1..]), Drop(t, keys[1..], xs[1..]);
      if t.Covers(keys[0]) {
        assert !a.Covers(keys[0]);
        assert Drop(t, keys, keys) == ks && Drop(t, keys, xs) == ys;
      } else {
        FirstOfCons(a, keys[0], ks, xs[0], ys);
        assert Drop(t, keys, keys) == [keys[0]] + ks && Drop(t, keys, xs) == [xs[0]] + ys;
      }
    } else {
      assert xs == [];
    }
  }

  lemma {:induction false} FirstOfCons<X>(a: Target, k: string, keys: seq<string>, x: X, xs: seq<X>)
    requires |keys| == |xs|
    ensures FirstOf(a, [k] + keys, [x] + xs) == if a.Covers(k) then Some(x) else FirstOf(a, keys, xs)
  {
    assert ([k] + keys)[1..] == keys;
  }

  lemma {:induction false} FirstOfConcat<X>(a: Target, k1: seq<string>, k2: seq<string>, x1: seq<X>, x2: seq<X>)
    requires |k1| == |x1| && |k2| == |x2|
    ensures FirstOf(a, k1 + k2, x1 + x2) == if FirstOf(a, k1, x1).Some? then FirstOf(a, k1, x1) else FirstOf(a, k2, x2)
  {
    var f := First(a, k1);
    if f < |k1| {
      FirstIs(a, k1 + k2, f);
    } else {
      FirstIs(a, k1 + k2, |k1| + First(a, k2));
    }
  }

  /** An edit about other names leaves the first header of a name where it is. */
  lemma {:induction false} FirstOfKept<X>(a: Target, op: Opcode, v: string, t: Target, keys: seq<string>, xs: seq<X>)
    requires |keys| == |xs| && Disjoint(a, t)
    ensures |Kept(op, v, t, keys, keys)| == |Kept(op, v, t, keys, xs)|
    ensures FirstOf(a, Kept(op, v, t, keys, keys), Kept(op, v, t, keys, xs)) == FirstOf(a, keys, xs)
  {
    hide Disjoint, FirstOf;
    var f := First(t, keys);
    if op == Append || op == Add || f == |keys| {
    } else if v == "" {
      FirstOfDrop(a, t, keys, xs);
    } else {
      var k1, k2, x1, x2 := keys[..f + 1], keys[f + 1..], xs[..f + 1], xs[f + 1..];
      assert k1 + k2 == keys && x1 + x2 == xs;
      FirstOfDrop(a, t, k2, x2);
      FirstOfConcat(a, k1, k2, x1, x2);
      FirstOfConcat(a, k1, Drop(t, k2, k2), x1, Drop(t, k2, x2));
    }
  }

  lemma {:induction false} NoneLeft<X>(t: Target, keys: seq<string>, xs: seq<X>)
    requires |keys| == |xs|
    ensures |Drop(t, keys, keys)| == |Drop(t, keys, xs)|
    ensures FirstOf(t, Drop(t, keys, keys), Drop(t, keys, xs)) == None
  {
    if keys != [] {
      NoneLeft(t, keys[1..], xs[1..]);
      if !t.Covers(keys[0]) {
        FirstOfCons(t, keys[0], Drop(t, keys[1..], keys[1..]), xs[0], Drop(t, keys[1..], xs[1..]));
      }
    }
  }

  /** An edit about the name itself leaves its first header, unless it deletes them all. */
  lemma {:induction false} FirstOfEdited<X>(op: Opcode, v: string, t: Target, keys: seq<string>, xs: seq<X>)
    requires |keys| == |xs|
    ensures |Kept(op, v, t, keys, keys)| == |Kept(op, v, t, keys, xs)|
    ensures FirstOf(t, Kept(op, v, t, keys, keys), Kept(op, v, t, keys, xs))
         == if op != Append && op != Add && v == "" then None else FirstOf(t, keys, xs)
  {
    var f := First(t, keys);
    if op == Append || op == Add || f == |keys| {
    } else if v == "" {
      NoneLeft(t, keys, xs);
    } else {
      var k1, k2, x1, x2 := keys[..f + 1], keys[f + 1..], xs[..f + 1], xs[f + 1..];
      NoneLeft(t, k2, x2);
      FirstOfConcat(t, k1, Drop(t, k2, k2), x1, Drop(t, k2, x2));
      FirstIs(t, k1, f);
    }
  }

  /** Deleting never finds a header of a name that had none, and deleting all of a wider target leaves none. */
  lemma {:induction false} NoneFound<X>(a: Target, t: Target, keys: seq<string>, xs: seq<X>)
    requires |keys| == |xs|
    requires FirstOf(a, keys, xs) == None || forall key: string :: a.Covers(key) ==> t.Covers(key)
    ensures |Drop(t, keys, keys)| == |Drop(t, keys, xs)|
    ensures FirstOf(a, Drop(t, keys, keys), Drop(t, keys, xs)) == None
  {
    hide FirstOf;
    if keys != [] {
      FirstOfCons(a, keys[0], keys[1..], xs[0], xs[1..]);
      assert [keys[0]] + keys[1..] == keys && [xs[0]] + xs[1..] == xs;
      NoneFound(a, t, keys[1..], xs[1..]);
      var ks, ys := Drop(t, keys[1..], keys[1..]), Drop(t, keys[1..], xs[1..]);
      if t.Covers(keys[0]) {
        assert Drop(t, keys, keys) == ks && Drop(t, keys, xs) == ys;
      } else {
        assert !a.Covers(keys[0]);
        FirstOfCons(a, keys[0], ks, xs[0], ys);
        assert Drop(t, keys, keys) == [keys[0]] + ks && Drop(t, keys, xs) == [xs[0]] + ys;
      }
    } else {
      NotNamed(a, Drop(t, keys, keys), Drop(t, keys, xs));
    }
  }

  lemma {:induction false} KeysDrop(t: Target, s: seq<Entry>)
    ensures Keys(Drop(t, Keys(s), s)) == Drop(t, Keys(s), Keys(s))
  {
    if s != [] {
      KeysDrop(t, s[1..]);
      assert Keys(s)[1..] == Keys(s[1..]);
      KeysConcat(if t.Covers(s[0].key) then [] else [s[0]], Drop(t, Keys(s[1..]), s[1..]));
    }
  }

  lemma {:induction false} KeysSlice(s: seq<Entry>, k: nat)
    requires k <= |s|
    ensures Keys(s[..k]) == Keys(s)[..k] && Keys(s[k..]) == Keys(s)[k..]
  {
  }

  lemma {:induction false} KeysKept(op: Opcode, v: string, t: Target, s: seq<Entry>)
    ensures Keys(Kept(op, v, t, Keys(s), s)) == Kept(op, v, t, Keys(s), Keys(s))
  {
    var f := First(t, Keys(s));
    if op == Append || op == Add || f == |s| {
    } else if v == "" {
      KeysDrop(t, s);
    } else {
      KeysSlice(s, f + 1);
      hide Drop, First, Keys;
      KeysDrop(t, s[f + 1..]);
      KeysConcat(s[..f + 1], Drop(t, Keys(s)[f + 1..], s[f + 1..]));
    }
  }

  /** The names that an edit leaves. */
  lemma {:induction false} KeysSurvivors(op: Opcode, v: string, t: Target, s: seq<Entry>)
    ensures Keys(Survivors(op, v, t, s)) == Kept(op, v, t, Keys(s), Keys(s))
  {
    KeysKept(op, v, t, Placed(op, v, t, s));
  }

  // ---------- whole edits ----------

  /** What the set-header helper does: the edit of the headers `s0` at `l0`, and of the field passed to it. */
  ghost predicate Edited<X>(rule: Rule, v: string, s0: seq<Entry>, l0: seq<X>, s: seq<Entry>, l: seq<X>,
                            output: Option<X>, out: Option<X>)
  {
    && |s0| == |l0| && |s| == |l| && s == Edit(rule, v, s0)
    && var op, t, keys := rule.opcode, rule.RequestTarget(v), Keys(s0);
       if Creates(op, v, t, keys) then
         l != [] && l == l0 + [l[|l| - 1]] && out == Some(l[|l| - 1])
       else
         && l == Kept(op, v, t, keys, l0)
         && out == if First(t, keys) == |s0| || op == Add then output
                   else if v == "" then None
                   else Some(l0[First(t, keys)])
  }

  lemma {:induction false} EditedByScan<X>(rule: Rule, v: string, s0: seq<Entry>, l0: seq<X>, s: seq<Entry>, l: seq<X>,
                                           found: bool, output: Option<X>, out: Option<X>)
    requires Scanned(rule.opcode, v, rule.RequestTarget(v), s0, l0, s, l, found, output, out) && rule.opcode != Append
    requires found || v == "" || rule.opcode == Rewrite
    requires |s| == |l|
    ensures Edited(rule, v, s0, l0, s, l, output, out)
  {
  }

  /** The scan found nothing that the edit is about, or there was no scan: the header is created. */
  lemma {:induction false} EditedByPush<X>(rule: Rule, v: string, s0: seq<Entry>, l0: seq<X>, slot: X,
                                           output: Option<X>)
    requires |s0| == |l0|
    requires rule.opcode == Append
             || (v != "" && rule.opcode != Rewrite && First(rule.RequestTarget(v), Keys(s0)) == |s0|)
    ensures Edited(rule, v, s0, l0, s0 + [NewEntry(rule, v)], l0 + [slot], output, Some(slot))
  {
  }

  lemma {:induction false} NothingFound<X>(rule: Rule, v: string, s0: seq<Entry>, l0: seq<X>, s: seq<Entry>, l: seq<X>,
                                           output: Option<X>, out: Option<X>)
    requires Scanned(rule.opcode, v, rule.RequestTarget(v), s0, l0, s, l, false, output, out) && v != ""
    ensures s == s0 && l == l0 && First(rule.RequestTarget(v), Keys(s0)) == |s0|
  {
  }

  /** Every builtin field holds the address of the first header of its name, and is null if there is none. */
  ghost predicate Agrees<X>(fields: map<string, Option<X>>, s: seq<Entry>, l: seq<X>) {
    |s| == |l| && forall b :: b in fields ==> fields[b] == FirstOf(Exact(b), Keys(s), l)
  }

  lemma {:induction false} EditedKeys<X>(rule: Rule, v: string, s0: seq<Entry>, l0: seq<X>, s: seq<Entry>, l: seq<X>,
                                         output: Option<X>, out: Option<X>)
    requires Edited(rule, v, s0, l0, s, l, output, out)
    ensures var op, t, keys := rule.opcode, rule.RequestTarget(v), Keys(s0);
            && |Kept(op, v, t, keys, keys)| == |Kept(op, v, t, keys, l0)|
            && Keys(s) == Kept(op, v, t, keys, keys) + (if Creates(op, v, t, keys) then [rule.key] else [])
            && |l| == |Keys(s)|
            && l[..|Kept(op, v, t, keys, keys)|] == Kept(op, v, t, keys, l0)
  {
    hide Drop, First, Placed;
    var op, t := rule.opcode, rule.RequestTarget(v);
    KeysSurvivors(op, v, t, s0);
    KeysConcat(Survivors(op, v, t, s0), if Creates(op, v, t, Keys(s0)) then [NewEntry(rule, v)] else []);
  }

  /** A header that the edit creates is the first one of no other name. */
  lemma {:induction false} OtherField<X>(rule: Rule, v: string, s0: seq<Entry>, l0: seq<X>, s: seq<Entry>, l: seq<X>,
                                         output: Option<X>, out: Option<X>, b: string)
    requires Edited(rule, v, s0, l0, s, l, output, out)
    requires !SameName(rule.key, b)
    ensures var op, t, keys := rule.opcode, rule.RequestTarget(v), Keys(s0);
            && |Kept(op, v, t, keys, keys)| == |Kept(op, v, t, keys, l0)|
            && FirstOf(Exact(b), Keys(s), l) == FirstOf(Exact(b), Kept(op, v, t, keys, keys), Kept(op, v, t, keys, l0))
  {
    hide Edited, Kept, Keys, FirstOf, Disjoint;
    var op, t, keys := rule.opcode, rule.RequestTarget(v), Keys(s0);
    EditedKeys(rule, v, s0, l0, s, l, output, out);
    var n := |Kept(op, v, t, keys, keys)|;
    assert l == l[..n] + l[n..];
    FirstOfConcat(Exact(b), Kept(op, v, t, keys, keys), Keys(s)[n..], l[..n], l[n..]);
    assert Keys(s) == Kept(op, v, t, keys, keys) + Keys(s)[n..];
    NotNamed(Exact(b), Keys(s)[n..], l[n..]);
  }

  lemma {:induction false} NotNamed<X>(t: Target, keys: seq<string>, xs: seq<X>)
    requires |keys| == |xs| && forall j :: 0 <= j < |keys| ==> !t.Covers(keys[j])
    ensures FirstOf(t, keys, xs) == None
  {
  }

  /** The field that an edit about its own name is given ends up with the address of the first header again. */
  lemma {:induction false} OwnField<X>(rule: Rule, v: string, s0: seq<Entry>, l0: seq<X>, s: seq<Entry>, l: seq<X>,
                                       output: Option<X>, out: Option<X>)
    requires Edited(rule, v, s0, l0, s, l, output, out) && !rule.wildcard && rule.opcode != Append
    requires output == FirstOf(Exact(rule.key), Keys(s0), l0)
    ensures out == FirstOf(Exact(rule.key), Keys(s), l)
  {
    var op, t, keys := rule.opcode, rule.RequestTarget(v), Keys(s0);
    EditedKeys(rule, v, s0, l0, s, l, output, out);
    FirstOfEdited(op, v, t, keys, l0);
    var n := |Kept(op, v, t, keys, keys)|;
    assert l == l[..n] + l[n..];
    assert Keys(s) == Kept(op, v, t, keys, keys) + Keys(s)[n..];
    hide Kept, Keys;
    FirstOfConcat(t, Kept(op, v, t, keys, keys), Keys(s)[n..], l[..n], l[n..]);
  }
}
