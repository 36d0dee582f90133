/** What one rule does to a list of headers, as a function of the list: the meaning that the request side
    reaches by deleting elements and the response side by tombstoning them. */
module HeaderEdit {
  import opened Names
  import opened Seqs

  datatype Opcode = Set | Clear | Add | Append | Rewrite | Pass

  /** The headers a rule is about. */
  datatype Target = Exact(name: string) | Prefix(prefix: string) | Nothing {
    predicate Covers(key: string) {
      match this
      case Exact(name) => SameName(key, name)
      case Prefix(prefix) => HasPrefix(key, prefix)
      case Nothing => false
    }
  }

  /** The position of the first covered name, or the length. */
  function First(t: Target, keys: seq<string>): (f: nat)
    ensures f <= |keys|
    ensures f < |keys| ==> t.Covers(keys[f])
    ensures forall j :: 0 <= j < f ==> !t.Covers(keys[j])
  {
    if keys == [] || t.Covers(keys[0]) then 0 else 1 + First(t, keys[1..])
  }

  /** The elements of `xs` whose name is not covered. */
  function Drop<X>(t: Target, keys: seq<string>, xs: seq<X>): (r: seq<X>)
    requires |keys| == |xs|
    ensures |r| <= |xs|
  {
    if keys == [] then []
    else (if t.Covers(keys[0]) then [] else [xs[0]]) + Drop(t, keys[1..], xs[1..])
  }

  /** The edit puts its value into the first covered header. */
  predicate Replaces(op: Opcode, value: string, t: Target, keys: seq<string>) {
    op != Append && op != Add && value != "" && First(t, keys) < |keys|
  }

  /** The edit adds a header at the end. */
  predicate Creates(op: Opcode, value: string, t: Target, keys: seq<string>) {
    op == Append || (value != "" && op != Rewrite && First(t, keys) == |keys|)
  }

  /** What the edit leaves of the elements `xs` named `keys`: all of them, or all but the covered ones, or all but the
      covered ones behind the first of these. */
  function Kept<X>(op: Opcode, value: string, t: Target, keys: seq<string>, xs: seq<X>): seq<X>
    requires |keys| == |xs|
  {
    var f := First(t, keys);
    if op == Append || op == Add || f == |keys| then xs
    else if value == "" then Drop(t, keys, xs)
    else xs[..f + 1] + Drop(t, keys[f + 1..], xs[f + 1..])
  }

  lemma {:induction false} FirstIs(t: Target, keys: seq<string>, f: nat)
    requires f <= |keys| && (f < |keys| ==> t.Covers(keys[f]))
    requires forall j :: 0 <= j < f ==> !t.Covers(keys[j])
    ensures First(t, keys) == f
  {
  }

  lemma {:induction false} FirstAtMost(t: Target, keys: seq<string>, k: nat)
    requires k < |keys| && t.Covers(keys[k])
    ensures First(t, keys) <= k
  {
  }

  lemma {:induction false} DropNone<X>(t: Target, keys: seq<string>, xs: seq<X>)
    requires |keys| == |xs| && forall j :: 0 <= j < |keys| ==> !t.Covers(keys[j])
    ensures Drop(t, keys, xs) == xs
  {
    if keys != [] {
      DropNone(t, keys[1..], xs[1..]);
    }
  }

  lemma {:induction false} DropConcat<X>(t: Target, ka: seq<string>, a: seq<X>, kb: seq<string>, b: seq<X>)
    requires |ka| == |a| && |kb| == |b|
    ensures Drop(t, ka + kb, a + b) == Drop(t, ka, a) + Drop(t, kb, b)
  {
    if ka == [] {
      assert ka + kb == kb && a + b == b;
    } else {
      assert (ka + kb)[1..] == ka[1..] + kb && (a + b)[1..] == a[1..] + b;
      DropConcat(t, ka[1..], a[1..], kb, b);
    }
  }

  lemma {:induction false} DropRemoveAt<X>(t: Target, keys: seq<string>, xs: seq<X>, k: nat)
    requires |keys| == |xs| && k < |keys| && t.Covers(keys[k])
    ensures Drop(t, RemoveAt(keys, k), RemoveAt(xs, k)) == Drop(t, keys, xs)
  {
    if k == 0 {
      assert RemoveAt(keys, 0) == keys[1..] && RemoveAt(xs, 0) == xs[1..];
    } else {
      assert RemoveAt(keys, k)[1..] == RemoveAt(keys[1..], k - 1);
      assert RemoveAt(xs, k)[1..] == RemoveAt(xs[1..], k - 1);
      DropRemoveAt(t, keys[1..], xs[1..], k - 1);
    }
  }

  lemma {:induction false} FirstRemoveAt(t: Target, keys: seq<string>, k: nat)
    requires First(t, keys) < k < |keys|
    ensures First(t, RemoveAt(keys, k)) == First(t, keys)
  {
    FirstIs(t, RemoveAt(keys, k), First(t, keys));
  }

  /** Deleting a covered element that the edit deletes anyway does not change what the edit leaves. */
  lemma {:induction false} KeptRemoveAt<X>(op: Opcode, value: string, t: Target, keys: seq<string>, xs: seq<X>, k: nat)
    requires |keys| == |xs| && k < |keys| && t.Covers(keys[k])
    requires op != Append && op != Add && (value == "" || First(t, keys) < k)
    ensures Kept(op, value, t, RemoveAt(keys, k), RemoveAt(xs, k)) == Kept(op, value, t, keys, xs)
  {
    hide Kept, First, Drop;
    var f := First(t, keys);
    if value == "" {
      DropRemoveAt(t, keys, xs, k);
      KeptCleared(op, t, keys, xs);
      KeptCleared(op, t, RemoveAt(keys, k), RemoveAt(xs, k));
    } else {
      FirstRemoveAt(t, keys, k);
      RemoveBehind(keys, f, k);
      RemoveBehind(xs, f, k);
      KeptFirst(op, value, t, keys, xs);
      KeptFirst(op, value, t, RemoveAt(keys, k), RemoveAt(xs, k));
      hide RemoveAt;
      DropRemoveAt(t, keys[f + 1..], xs[f + 1..], k - f - 1);
    }
  }

  lemma {:induction false} KeptCleared<X>(op: Opcode, t: Target, keys: seq<string>, xs: seq<X>)
    requires |keys| == |xs| && op != Append && op != Add
    ensures Kept(op, "", t, keys, xs) == Drop(t, keys, xs)
  {
    if First(t, keys) == |keys| {
      DropNone(t, keys, xs);
    }
  }

  lemma {:induction false} KeptFirst<X>(op: Opcode, v: string, t: Target, keys: seq<string>, xs: seq<X>)
    requires |keys| == |xs| && op != Append && op != Add && v != ""
    ensures var f := First(t, keys);
      && f <= |keys|
      && Kept(op, v, t, keys, xs) == if f == |keys| then xs else xs[..f + 1] + Drop(t, keys[f + 1..], xs[f + 1..])
  {
  }

  /** An edit that finds no covered element behind its first one deletes nothing. */
  lemma {:induction false} KeptDone<X>(op: Opcode, value: string, t: Target, keys: seq<string>, xs: seq<X>)
    requires |keys| == |xs| && (value == "" ==> First(t, keys) == |keys|)
    requires forall j :: First(t, keys) < j < |keys| ==> !t.Covers(keys[j])
    ensures Kept(op, value, t, keys, xs) == xs
  {
    var f := First(t, keys);
    if f < |keys| && op != Append && op != Add {
      DropNone(t, keys[f + 1..], xs[f + 1..]);
      assert xs == xs[..f + 1] + xs[f + 1..];
    }
  }

  lemma {:induction false} KeptAmong<X>(op: Opcode, v: string, t: Target, keys: seq<string>, xs: seq<X>)
    requires |keys| == |xs|
    ensures forall x :: x in Kept(op, v, t, keys, xs) ==> x in xs
  {
    hide Target.Covers;
    DropAmong(t, keys, xs);
    if First(t, keys) < |keys| {
      DropAmong(t, keys[First(t, keys) + 1..], xs[First(t, keys) + 1..]);
    }
  }

  lemma {:induction false} DropAmong<X>(t: Target, keys: seq<string>, xs: seq<X>)
    requires |keys| == |xs|
    ensures forall x :: x in Drop(t, keys, xs) ==> x in xs
  {
    hide Target.Covers;
    if keys != [] {
      DropAmong(t, keys[1..], xs[1..]);
    }
  }
}
