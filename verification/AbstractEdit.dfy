/** The edit of a header list as clients see it, a sequence of names and values. Deleting headers and marking them as
    deleted both come to it. */
module AbstractEdit {
  import opened HeaderEdit
  import opened Rules
  import opened RequestEdit

  datatype Header = Header(name: string, value: string)

  /** The headers without the covered ones. */
  function Without(t: Target, s: seq<Header>): seq<Header> {
    if s == [] then [] else (if t.Covers(s[0].name) then [] else [s[0]]) + Without(t, s[1..])
  }

  /** The first covered header gets the value, and the covered ones behind it go. */
  function OnlyOne(v: string, t: Target, s: seq<Header>): seq<Header> {
    if s == [] then []
    else if t.Covers(s[0].name) then [s[0].(value := v)] + Without(t, s[1..])
    else [s[0]] + OnlyOne(v, t, s[1..])
  }

  predicate Present(t: Target, s: seq<Header>) {
    s != [] && (t.Covers(s[0].name) || Present(t, s[1..]))
  }

  /** The whole edit. */
  function EditHeaders(rule: Rule, v: string, t: Target, s: seq<Header>): seq<Header> {
    if rule.opcode == Append then s + [Header(rule.key, v)]
    else if !Present(t, s) then (if v == "" || rule.opcode == Rewrite then s else s + [Header(rule.key, v)])
    else if rule.opcode == Add then s
    else if v == "" then Without(t, s)
    else OnlyOne(v, t, s)
  }

  lemma {:induction false} WithoutPresent(t: Target, s: seq<Header>)
    ensures !Present(t, s) ==> Without(t, s) == s
  {
    if s != [] {
      WithoutPresent(t, s[1..]);
    }
  }

  // ---------- the request side: every header in the list ----------

  function AllHeaders(s: seq<Entry>): (r: seq<Header>)
    ensures |r| == |s|
  {
    if s == [] then [] else [Header(s[0].key, s[0].value)] + AllHeaders(s[1..])
  }

  lemma {:induction false} AllConcat(a: seq<Entry>, b: seq<Entry>)
    ensures AllHeaders(a + b) == AllHeaders(a) + AllHeaders(b)
  {
    if a == [] {
      assert a + b == b;
    } else {
      assert (a + b)[1..] == a[1..] + b;
      AllConcat(a[1..], b);
    }
  }

  lemma {:induction false} AllPresent(t: Target, s: seq<Entry>)
    ensures First(t, Keys(s)) < |s| <==> Present(t, AllHeaders(s))
  {
    if s != [] {
      assert Keys(s)[1..] == Keys(s[1..]);
      AllPresent(t, s[1..]);
    }
  }

  lemma {:induction false} AllDropped(t: Target, s: seq<Entry>)
    ensures AllHeaders(Drop(t, Keys(s), s)) == Without(t, AllHeaders(s))
  {
    if s != [] {
      assert Keys(s)[1..] == Keys(s[1..]);
      AllDropped(t, s[1..]);
      AllConcat(if t.Covers(s[0].key) then [] else [s[0]], Drop(t, Keys(s[1..]), s[1..]));
    }
  }

  lemma {:induction false} KeptCons<X>(op: Opcode, v: string, t: Target, k: string, keys: seq<string>, x: X, xs: seq<X>)
    requires |keys| == |xs| && op != Append && op != Add && v != ""
    ensures Kept(op, v, t, [k] + keys, [x] + xs) == [x] + if t.Covers(k) then Drop(t, keys, xs)
            else Kept(op, v, t, keys, xs)
  {
    hide Drop, Kept, First;
    var ks, ys := [k] + keys, [x] + xs;
    var f := First(t, keys);
    KeptFirst(op, v, t, ks, ys);
    KeptFirst(op, v, t, keys, xs);
    FirstCons(t, k, keys);
    if t.Covers(k) {
      assert ks[1..] == keys && ys[1..] == xs && ys[..1] == [x];
    } else if f < |keys| {
      assert ks[f + 2..] == keys[f + 1..] && ys[f + 2..] == xs[f + 1..] && ys[..f + 2] == [x] + xs[..f + 1];
    }
  }

  lemma {:induction false} PlacedCons(op: Opcode, v: string, t: Target, e: Entry, s: seq<Entry>)
    requires op != Append && op != Add && v != ""
    ensures Placed(op, v, t, [e] + s) == if t.Covers(e.key) then [e.(value := v)] + s else [e] + Placed(op, v, t, s)
  {
    hide First, Keys;
    var f, es := First(t, Keys(s)), [e] + s;
    assert Keys(es) == [e.key] + Keys(s) by {
      KeysConcat([e], s);
      KeysOne(e);
    }
    FirstCons(t, e.key, Keys(s));
    if t.Covers(e.key) {
      assert es[0 := e.(value := v)] == [e.(value := v)] + s;
    } else if f < |s| {
      assert es[f + 1] == s[f];
      assert es[f + 1 := s[f].(value := v)] == [e] + s[f := s[f].(value := v)];
    }
  }

  lemma {:induction false} KeysOne(e: Entry)
    ensures Keys([e]) == [e.key]
  {
  }

  lemma {:induction false} FirstCons(t: Target, k: string, keys: seq<string>)
    ensures First(t, [k] + keys) == if t.Covers(k) then 0 else 1 + First(t, keys)
  {
    assert ([k] + keys)[1..] == keys;
  }

  lemma {:induction false} AllOnlyOne(op: Opcode, v: string, t: Target, s: seq<Entry>)
    requires op != Append && op != Add && v != ""
    ensures AllHeaders(Survivors(op, v, t, s)) == OnlyOne(v, t, AllHeaders(s))
  {
    if s != [] {
      var e, s' := s[0], s[1..];
      assert s == [e] + s' && Keys(s) == [e.key] + Keys(s');
      AllOnlyOne(op, v, t, s');
      PlacedCons(op, v, t, e, s');
      hide Placed, Kept, Drop, Keys;
      if t.Covers(e.key) {
        KeptCons(op, v, t, e.key, Keys(s'), e.(value := v), s');
        AllDropped(t, s');
        AllConcat([e.(value := v)], Drop(t, Keys(s'), s'));
      } else {
        KeptCons(op, v, t, e.key, Keys(s'), e, Placed(op, v, t, s'));
        AllConcat([e], Survivors(op, v, t, s'));
      }
    }
  }

  /** The request side, which deletes, performs the edit. */
  lemma {:induction false} DeletionRefines(rule: Rule, v: string, s: seq<Entry>)
    ensures AllHeaders(Edit(rule, v, s)) == EditHeaders(rule, v, rule.RequestTarget(v), AllHeaders(s))
  {
    hide First, Drop, OnlyOne, Without, Present, Keys, AllHeaders, Placed;
    var op, t, keys := rule.opcode, rule.RequestTarget(v), Keys(s);
    AllPresent(t, s);
    AllOne(rule, v);
    AllConcat(Survivors(op, v, t, s), [NewEntry(rule, v)]);
    assert Survivors(op, v, t, s) + [] == Survivors(op, v, t, s);
    if op == Append || op == Add || First(t, keys) == |s| {
      NothingPlaced(op, v, t, s);
    } else if v == "" {
      NothingPlaced(op, v, t, s);
      AllDropped(t, s);
    } else {
      AllOnlyOne(op, v, t, s);
    }
  }

  lemma {:induction false} AllOne(rule: Rule, v: string)
    ensures AllHeaders([NewEntry(rule, v)]) == [Header(rule.key, v)]
  {
  }

  lemma {:induction false} NothingPlaced(op: Opcode, v: string, t: Target, s: seq<Entry>)
    requires !Replaces(op, v, t, Keys(s))
    ensures Placed(op, v, t, s) == s
  {
  }
}
